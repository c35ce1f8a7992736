/**
 * The study-scoped permission gate (`lib/supabase/permissions.ts`). The role lookup is the
 * database function `get_user_study_role`, taken here as an oracle; each capability is a fixed
 * list of roles that the resolved role must appear in. Anything else is denied.
 */
module Permissions {
  import opened Wrappers
  import opened Types

  /** What the `get_user_study_role` call answered: an error, or data that may be null. */
  datatype RoleReply = RpcError(message: string) | RpcData(data: Option<string>)

  /** The role lookup for a (user, study) pair. */
  type RoleRpc = (Id, Id) -> RoleReply

  /**
   * `getUserStudyRole`: null when the call failed or its data is falsy (null or empty);
   * otherwise the returned text, cast to a role without being checked.
   */
  function GetUserStudyRole(rpc: RoleRpc, userId: Id, studyId: Id): (role: Option<string>)
    ensures role.Some? <==> rpc(userId, studyId).RpcData? && rpc(userId, studyId).data.Some?
                            && rpc(userId, studyId).data.value != ""
    ensures role.Some? ==> role.value == rpc(userId, studyId).data.value
  {
    match rpc(userId, studyId)
    case RpcError(_) => None
    case RpcData(data) => if data.None? || data.value == "" then None else data
  }

  /** `roles.includes(text)`. */
  predicate Includes(roles: seq<StudyRole>, text: string) {
    exists i :: 0 <= i < |roles| && RoleName(roles[i]) == text
  }

  /** `role !== null && requiredRoles.includes(role)` for an already resolved role. */
  predicate Allows(role: Option<string>, requiredRoles: seq<StudyRole>) {
    role.Some? && Includes(requiredRoles, role.value)
  }

  /** `hasStudyRole(userId, studyId, requiredRoles)`. */
  predicate HasStudyRole(rpc: RoleRpc, userId: Id, studyId: Id, requiredRoles: seq<StudyRole>) {
    Allows(GetUserStudyRole(rpc, userId, studyId), requiredRoles)
  }

  const CreateRoles: seq<StudyRole> := [Creator, Admin]
  const ReviewRoles: seq<StudyRole> := [Reviewer, Approver, Auditor, Admin]
  const ApproveRoles: seq<StudyRole> := [Approver, Admin]
  const AuditRoles: seq<StudyRole> := [Auditor, Admin]
  const ManageRoles: seq<StudyRole> := [Admin]

  predicate CanCreateRecord(rpc: RoleRpc, userId: Id, studyId: Id) {
    HasStudyRole(rpc, userId, studyId, CreateRoles)
  }

  predicate CanReviewRecord(rpc: RoleRpc, userId: Id, studyId: Id) {
    HasStudyRole(rpc, userId, studyId, ReviewRoles)
  }

  predicate CanApproveRecord(rpc: RoleRpc, userId: Id, studyId: Id) {
    HasStudyRole(rpc, userId, studyId, ApproveRoles)
  }

  predicate CanAuditRecord(rpc: RoleRpc, userId: Id, studyId: Id) {
    HasStudyRole(rpc, userId, studyId, AuditRoles)
  }

  predicate CanManageStudyMembers(rpc: RoleRpc, userId: Id, studyId: Id) {
    HasStudyRole(rpc, userId, studyId, ManageRoles)
  }

  /**
   * `hasStudyRole` holds exactly when the lookup yields the name of a role that is in
   * `requiredRoles`; a text that names no role never passes.
   */
  lemma HasStudyRoleMeaning(rpc: RoleRpc, userId: Id, studyId: Id, requiredRoles: seq<StudyRole>)
    ensures HasStudyRole(rpc, userId, studyId, requiredRoles) <==>
      var role := GetUserStudyRole(rpc, userId, studyId);
      role.Some? && ParseRole(role.value).Some? && ParseRole(role.value).value in requiredRoles
  {
    var role := GetUserStudyRole(rpc, userId, studyId);
    if role.Some? && ParseRole(role.value).Some? && ParseRole(role.value).value in requiredRoles {
      var r := ParseRole(role.value).value;
      var i :| 0 <= i < |requiredRoles| && requiredRoles[i] == r;
      assert RoleName(requiredRoles[i]) == role.value;
    }
    if HasStudyRole(rpc, userId, studyId, requiredRoles) {
      var i :| 0 <= i < |requiredRoles| && RoleName(requiredRoles[i]) == role.value;
      RolesClosed(requiredRoles[i]);
    }
  }

  /** Deny by default: a failed or empty lookup, or a text that is no role, fails every check. */
  lemma DenyWithoutRole(rpc: RoleRpc, userId: Id, studyId: Id)
    requires GetUserStudyRole(rpc, userId, studyId).None? || ParseRole(GetUserStudyRole(rpc, userId, studyId).value).None?
    ensures !CanCreateRecord(rpc, userId, studyId) && !CanReviewRecord(rpc, userId, studyId)
    ensures !CanApproveRecord(rpc, userId, studyId) && !CanAuditRecord(rpc, userId, studyId)
    ensures !CanManageStudyMembers(rpc, userId, studyId)
  {
    HasStudyRoleMeaning(rpc, userId, studyId, CreateRoles);
    HasStudyRoleMeaning(rpc, userId, studyId, ReviewRoles);
    HasStudyRoleMeaning(rpc, userId, studyId, ApproveRoles);
    HasStudyRoleMeaning(rpc, userId, studyId, AuditRoles);
    HasStudyRoleMeaning(rpc, userId, studyId, ManageRoles);
  }

  /** The capability table, role by role, for a lookup that yields the name of `r`. */
  lemma CapabilityTable(rpc: RoleRpc, userId: Id, studyId: Id, r: StudyRole)
    requires GetUserStudyRole(rpc, userId, studyId) == Some(RoleName(r))
    ensures CanCreateRecord(rpc, userId, studyId) <==> r == Creator || r == Admin
    ensures CanReviewRecord(rpc, userId, studyId) <==> r != Creator
    ensures CanApproveRecord(rpc, userId, studyId) <==> r == Approver || r == Admin
    ensures CanAuditRecord(rpc, userId, studyId) <==> r == Auditor || r == Admin
    ensures CanManageStudyMembers(rpc, userId, studyId) <==> r == Admin
  {
    RolesClosed(r);
    HasStudyRoleMeaning(rpc, userId, studyId, CreateRoles);
    HasStudyRoleMeaning(rpc, userId, studyId, ReviewRoles);
    HasStudyRoleMeaning(rpc, userId, studyId, ApproveRoles);
    HasStudyRoleMeaning(rpc, userId, studyId, AuditRoles);
    HasStudyRoleMeaning(rpc, userId, studyId, ManageRoles);
  }

  /** Whoever may approve or audit may also review. */
  lemma ApproveAndAuditImplyReview(rpc: RoleRpc, userId: Id, studyId: Id)
    ensures CanApproveRecord(rpc, userId, studyId) ==> CanReviewRecord(rpc, userId, studyId)
    ensures CanAuditRecord(rpc, userId, studyId) ==> CanReviewRecord(rpc, userId, studyId)
  {
    HasStudyRoleMeaning(rpc, userId, studyId, ReviewRoles);
    HasStudyRoleMeaning(rpc, userId, studyId, ApproveRoles);
    HasStudyRoleMeaning(rpc, userId, studyId, AuditRoles);
  }

  /** Requiring more roles never turns an allow into a deny. */
  lemma AllowsMonotone(role: Option<string>, fewer: seq<StudyRole>, more: seq<StudyRole>)
    requires forall r :: r in fewer ==> r in more
    requires Allows(role, fewer)
    ensures Allows(role, more)
  {
    var i :| 0 <= i < |fewer| && RoleName(fewer[i]) == role.value;
    assert fewer[i] in fewer;
    var j :| 0 <= j < |more| && more[j] == fewer[i];
  }
}
