/**
 * The shared vocabulary of AuditWiz (`lib/types.ts`): the closed enumerations, the rows of the
 * provenance tables and the identity reserved for automated actors. Nullable columns are
 * `Option`s; database timestamps are integers so that they can be ordered.
 */
module Types {
  import opened Wrappers
  import Json

  type Id = string

  /** Free-form JSON metadata attached to rows and audit events. */
  type Metadata = map<string, Json.Value>

  datatype StudyRole = Creator | Reviewer | Approver | Auditor | Admin

  const AllRoles: seq<StudyRole> := [Creator, Reviewer, Approver, Auditor, Admin]

  function RoleName(r: StudyRole): string {
    match r
    case Creator => "creator"
    case Reviewer => "reviewer"
    case Approver => "approver"
    case Auditor => "auditor"
    case Admin => "admin"
  }

  /** Reads a role name back; `None` for any text that is not one of the five names. */
  function ParseRole(t: string): (r: Option<StudyRole>)
    ensures r.Some? ==> RoleName(r.value) == t
  {
    if t == "creator" then Some(Creator)
    else if t == "reviewer" then Some(Reviewer)
    else if t == "approver" then Some(Approver)
    else if t == "auditor" then Some(Auditor)
    else if t == "admin" then Some(Admin)
    else None
  }

  /** There are exactly five roles, each listed once, each with its own name. */
  lemma RolesClosed(r: StudyRole)
    ensures r in AllRoles && |AllRoles| == 5
    ensures forall i, j :: 0 <= i < j < |AllRoles| ==> RoleName(AllRoles[i]) != RoleName(AllRoles[j])
    ensures ParseRole(RoleName(r)) == Some(r)
  {
  }

  datatype StudyStatus = StudyDraft | Active | Completed | Archived

  function StudyStatusName(s: StudyStatus): string {
    match s
    case StudyDraft => "draft"
    case Active => "active"
    case Completed => "completed"
    case Archived => "archived"
  }

  datatype RecordStatus = Draft | Submitted | UnderReview | Approved | Rejected | Amended

  const AllRecordStatuses: seq<RecordStatus> := [Draft, Submitted, UnderReview, Approved, Rejected, Amended]

  function RecordStatusName(s: RecordStatus): string {
    match s
    case Draft => "draft"
    case Submitted => "submitted"
    case UnderReview => "under_review"
    case Approved => "approved"
    case Rejected => "rejected"
    case Amended => "amended"
  }

  function ParseRecordStatus(t: string): (r: Option<RecordStatus>)
    ensures r.Some? ==> RecordStatusName(r.value) == t
  {
    if t == "draft" then Some(Draft)
    else if t == "submitted" then Some(Submitted)
    else if t == "under_review" then Some(UnderReview)
    else if t == "approved" then Some(Approved)
    else if t == "rejected" then Some(Rejected)
    else if t == "amended" then Some(Amended)
    else None
  }

  /** Six record statuses, `amended` among them, each with its own name. */
  lemma RecordStatusesClosed(s: RecordStatus)
    ensures s in AllRecordStatuses && |AllRecordStatuses| == 6 && Amended in AllRecordStatuses
    ensures forall i, j :: 0 <= i < j < |AllRecordStatuses| ==>
      RecordStatusName(AllRecordStatuses[i]) != RecordStatusName(AllRecordStatuses[j])
    ensures ParseRecordStatus(RecordStatusName(s)) == Some(s)
  {
  }

  datatype SignatureIntent = Review | Approval | Amendment | Rejection

  const AllIntents: seq<SignatureIntent> := [Review, Approval, Amendment, Rejection]

  function IntentName(i: SignatureIntent): string {
    match i
    case Review => "review"
    case Approval => "approval"
    case Amendment => "amendment"
    case Rejection => "rejection"
  }

  /** Four signature intents, each with its own name. */
  lemma IntentsClosed(i: SignatureIntent)
    ensures i in AllIntents && |AllIntents| == 4
    ensures forall j, k :: 0 <= j < k < |AllIntents| ==> IntentName(AllIntents[j]) != IntentName(AllIntents[k])
  {
  }

  datatype AuditActionType =
    | StudyCreated | StudyUpdated | StudyDeleted
    | MemberAdded | MemberRemoved | MemberRoleChanged
    | RecordCreated | RecordSubmitted | RecordAmended | RecordRejected
    | DocumentUploaded | DocumentDeleted
    | SignatureAdded | SignatureRevoked
    | AiAction | SystemAction
    | BlockchainAnchored

  const AllActionTypes: seq<AuditActionType> := [
    StudyCreated, StudyUpdated, StudyDeleted,
    MemberAdded, MemberRemoved, MemberRoleChanged,
    RecordCreated, RecordSubmitted, RecordAmended, RecordRejected,
    DocumentUploaded, DocumentDeleted,
    SignatureAdded, SignatureRevoked,
    AiAction, SystemAction,
    BlockchainAnchored
  ]

  function ActionName(a: AuditActionType): string {
    match a
    case StudyCreated => "study_created"
    case StudyUpdated => "study_updated"
    case StudyDeleted => "study_deleted"
    case MemberAdded => "member_added"
    case MemberRemoved => "member_removed"
    case MemberRoleChanged => "member_role_changed"
    case RecordCreated => "record_created"
    case RecordSubmitted => "record_submitted"
    case RecordAmended => "record_amended"
    case RecordRejected => "record_rejected"
    case DocumentUploaded => "document_uploaded"
    case DocumentDeleted => "document_deleted"
    case SignatureAdded => "signature_added"
    case SignatureRevoked => "signature_revoked"
    case AiAction => "ai_action"
    case SystemAction => "system_action"
    case BlockchainAnchored => "blockchain_anchored"
  }

  /** A text names an audit action exactly when it is one of the seventeen names. */
  predicate IsActionName(t: string) {
    exists a: AuditActionType :: ActionName(a) == t
  }

  /** The audit actions form a closed set of seventeen distinct names. */
  lemma ActionTypesClosed(a: AuditActionType)
    ensures a in AllActionTypes && |AllActionTypes| == 17
    ensures forall i, j :: 0 <= i < j < |AllActionTypes| ==>
      ActionName(AllActionTypes[i]) != ActionName(AllActionTypes[j])
  {
  }

  datatype Study = Study(
    id: Id,
    title: string,
    description: Option<string>,
    status: string,  // the form's text, not checked against StudyStatus
    createdBy: Id)

  datatype StudyMember = StudyMember(
    studyId: Id,
    userId: Id,
    role: StudyRole,
    grantedBy: Option<Id>,
    revokedAt: Option<int>)

  /**
   * One immutable version of a record. Versions of one record share `recordNumber` and link to
   * the version they amend through `previousVersionId`.
   */
  datatype Record = Record(
    id: Id,
    studyId: Id,
    recordNumber: string,
    version: int,
    previousVersionId: Option<Id>,
    status: RecordStatus,
    createdBy: Option<Id>,
    content: Json.Value,
    contentHash: string,
    amendmentReason: Option<string>)

  datatype Signature = Signature(
    id: Id,
    recordId: Id,
    recordVersion: int,
    signerId: Id,
    intent: SignatureIntent,
    signatureHash: string,
    signedAt: int,
    ipAddress: Option<string>,
    userAgent: Option<string>)

  /**
   * One ledger entry. Only `newStateHash` is mandatory; the study, actor, target id and
   * previous hash may be null. `actionType` holds the stored text.
   */
  datatype AuditEvent = AuditEvent(
    id: Id,
    eventId: Id,
    studyId: Option<Id>,
    actorId: Option<Id>,
    actorRoleAtTime: Option<string>,
    actionType: string,
    targetEntityType: string,
    targetEntityId: Option<Id>,
    previousStateHash: Option<string>,
    newStateHash: string,
    timestamp: int,
    metadata: Metadata)

  datatype BlockchainAnchor = BlockchainAnchor(
    id: Id,
    recordId: Id,
    recordVersion: int,
    contentHash: string,
    transactionHash: Option<string>,
    blockNumber: Option<int>,
    anchoredAt: int)

  /** The actor recorded for automated and AI actions: the nil UUID of RFC 4122, section 4.1.7. */
  const SYSTEM_ACTOR_ID: Id := "00000000-0000-0000-0000-000000000000"

  /** The system actor is the nil UUID: 36 characters, hyphens at 8, 13, 18 and 23, zeros elsewhere. */
  lemma SystemActorIsNilUuid()
    ensures |SYSTEM_ACTOR_ID| == 36
    ensures forall i :: 0 <= i < 36 ==>
      SYSTEM_ACTOR_ID[i] == (if i == 8 || i == 13 || i == 18 || i == 23 then '-' else '0')
  {
  }
}
