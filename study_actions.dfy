/**
 * Creating a study (`createStudy` in `app/studies/actions.ts`): a server action that writes the
 * study row, then the creator's admin membership, then one `study_created` audit event, stopping
 * at the first write that fails. The writes are separate: a failed membership insert leaves the
 * study row in place, and a failed audit append leaves both rows in place.
 */
module StudyActions {
  import opened Wrappers
  import opened Text
  import opened Types
  import opened Json
  import opened Crypto
  import opened Store
  import opened Audit

  /** The form fields; `None` is a field the form did not send. */
  datatype StudyForm = StudyForm(title: Option<string>, description: Option<string>, status: Option<string>)

  /** What the study insert did: failed with a message, or stored the row under a new id. */
  datatype StudyInsert = StudyInsertFailed(message: string) | StudyInserted(id: Id)

  /** How the action ends. */
  datatype CreateResult =
    | RedirectToSignIn            // no signed-in user
    | Invalid(error: string)      // `{ error }` returned to the form
    | AuditFailed(error: string)  // `createAuditEvent` threw; the action rejects with this message
    | Created(studyId: Id)        // redirect to the new study

  const TITLE_REQUIRED: string := "Title is required"
  const DEFAULT_STATUS: string := "draft"

  /** `!title?.trim()`: an absent or blank title. */
  predicate TitleMissing(title: Option<string>) {
    title.None? || IsBlank(title.value)
  }

  /** The title is missing exactly when it is absent or trims to the empty string. */
  lemma TitleMissingIff(title: Option<string>)
    ensures TitleMissing(title) <==> title.None? || Trim(title.value) == ""
  {
    if title.Some? {
      TrimEmptyIffBlank(title.value);
    }
  }

  /** `(formData.get('description') as string) || null`: an empty description reads as null. */
  function DescriptionField(description: Option<string>): Option<string> {
    if description.Some? && description.value != "" then description else None
  }

  /** `description?.trim() || null`: what the study row stores. */
  function StoredDescription(description: Option<string>): Option<string> {
    var d := DescriptionField(description);
    if d.Some? && Trim(d.value) != "" then Some(Trim(d.value)) else None
  }

  /** `description?.trim() ?? null`: what the state hash covers; a blank description stays `""`. */
  function HashedDescription(description: Option<string>): Value {
    var d := DescriptionField(description);
    if d.Some? then JStr(Trim(d.value)) else JNull
  }

  /** `(formData.get('status') as StudyStatus) || 'draft'`, not checked against the study statuses. */
  function StatusField(status: Option<string>): string {
    if status.Some? && status.value != "" then status.value else DEFAULT_STATUS
  }

  /** The study row inserted for a form with a title. */
  function StudyRow(id: Id, creator: Id, form: StudyForm): Study
    requires form.title.Some?
  {
    Study(id, Trim(form.title.value), StoredDescription(form.description), StatusField(form.status), creator)
  }

  /** The membership inserted for the creator. */
  function AdminMembership(studyId: Id, creator: Id): StudyMember {
    StudyMember(studyId, creator, Admin, Some(creator), None)
  }

  /** The object whose hash is the event's new state hash. */
  function StateObject(id: Id, form: StudyForm): Value
    requires form.title.Some?
  {
    JObject([
      Member("study_id", JStr(id)),
      Member("title", JStr(Trim(form.title.value))),
      Member("description", HashedDescription(form.description)),
      Member("status", JStr(StatusField(form.status)))])
  }

  /** The event's metadata, `{ title, status }`. */
  function CreatedMetadata(form: StudyForm): Metadata
    requires form.title.Some?
  {
    map["title" := JStr(Trim(form.title.value)), "status" := JStr(StatusField(form.status))]
  }

  /** The event appended for a created study. */
  function CreatedEvent(p: Primitives, outcome: AppendOutcome, id: Id, creator: Id, form: StudyForm): AuditEvent
    requires outcome.Appended? && form.title.Some?
  {
    EventRow(outcome, Some(id), Some(creator), ActionName(StudyCreated), "study", Some(id), None,
             GenerateHash(p, StateObject(id, form)), CreatedMetadata(form))
  }

  /**
   * The part of `createStudy` after the study row is stored: the creator's admin membership,
   * then the `study_created` event.
   */
  method AddCreatorAndLog(
    db: Database, ledger: AuditLedger, p: Primitives, id: Id, creator: Id, form: StudyForm,
    memberError: Option<string>, appended: AppendOutcome)
    returns (r: CreateResult)
    requires form.title.Some?
    modifies db, ledger
    ensures db.studies == old(db.studies) && db.records == old(db.records) && db.signatures == old(db.signatures)
    ensures memberError.Some? ==>
      r == Invalid(memberError.value) && db.members == old(db.members) && ledger.events == old(ledger.events)
    ensures memberError.None? ==>
      && db.members == old(db.members) + [AdminMembership(id, creator)]
      && (appended.AppendFailed? ==>
            r == AuditFailed(APPEND_ERROR_PREFIX + appended.message) && ledger.events == old(ledger.events))
      && (appended.Appended? ==>
            r == Created(id) &&
            ledger.events == old(ledger.events) + [CreatedEvent(p, appended, id, creator, form)])
  {
    if memberError.Some? {
      return Invalid(memberError.value);
    }
    db.InsertMember(AdminMembership(id, creator));
    r := LogStudyCreated(ledger, p, id, creator, form, appended);
  }

  /** The `study_created` event: its state hash covers the stored fields, its metadata the title and status. */
  method LogStudyCreated(ledger: AuditLedger, p: Primitives, id: Id, creator: Id, form: StudyForm, appended: AppendOutcome)
    returns (r: CreateResult)
    requires form.title.Some?
    modifies ledger
    ensures appended.AppendFailed? ==>
      r == AuditFailed(APPEND_ERROR_PREFIX + appended.message) && ledger.events == old(ledger.events)
    ensures appended.Appended? ==>
      r == Created(id) && ledger.events == old(ledger.events) + [CreatedEvent(p, appended, id, creator, form)]
  {
    var newStateHash := GenerateHash(p, StateObject(id, form));
    var logged := ledger.CreateAuditEvent(Some(id), Some(creator), ActionName(StudyCreated), "study", Some(id), None,
                                          newStateHash, Some(CreatedMetadata(form)), appended);
    match logged {
      case Ok(_) => r := Created(id);
      case Err(message) => r := AuditFailed(message);
    }
  }

  /**
   * `createStudy`. `user` is the signed-in user's id, if any; `inserted` is what the study insert
   * did; `memberError` is the membership insert's error, if any; `appended` is what the audit
   * append did.
   */
  method CreateStudy(
    db: Database, ledger: AuditLedger, p: Primitives, user: Option<Id>, form: StudyForm,
    inserted: StudyInsert, memberError: Option<string>, appended: AppendOutcome)
    returns (r: CreateResult)
    modifies db, ledger
    ensures db.records == old(db.records) && db.signatures == old(db.signatures)
    ensures user.None? ==>
      r == RedirectToSignIn &&
      db.studies == old(db.studies) && db.members == old(db.members) && ledger.events == old(ledger.events)
    ensures user.Some? && TitleMissing(form.title) ==>
      r == Invalid(TITLE_REQUIRED) &&
      db.studies == old(db.studies) && db.members == old(db.members) && ledger.events == old(ledger.events)
    ensures user.Some? && !TitleMissing(form.title) && inserted.StudyInsertFailed? ==>
      r == Invalid(inserted.message) &&
      db.studies == old(db.studies) && db.members == old(db.members) && ledger.events == old(ledger.events)
    ensures user.Some? && !TitleMissing(form.title) && inserted.StudyInserted? && memberError.Some? ==>
      r == Invalid(memberError.value) &&
      db.studies == old(db.studies) + [StudyRow(inserted.id, user.value, form)] &&
      db.members == old(db.members) && ledger.events == old(ledger.events)
    ensures user.Some? && !TitleMissing(form.title) && inserted.StudyInserted? && memberError.None? ==>
      && db.studies == old(db.studies) + [StudyRow(inserted.id, user.value, form)]
      && db.members == old(db.members) + [AdminMembership(inserted.id, user.value)]
      && (appended.AppendFailed? ==>
            r == AuditFailed(APPEND_ERROR_PREFIX + appended.message) && ledger.events == old(ledger.events))
      && (appended.Appended? ==>
            r == Created(inserted.id) &&
            ledger.events == old(ledger.events) + [CreatedEvent(p, appended, inserted.id, user.value, form)])
  {
    if user.None? {
      return RedirectToSignIn;
    }
    var creator := user.value;
    // `!title?.trim()`
    TitleMissingIff(form.title);
    if TitleMissing(form.title) {
      return Invalid(TITLE_REQUIRED);
    }
    if inserted.StudyInsertFailed? {
      return Invalid(inserted.message);
    }
    var id := inserted.id;
    db.InsertStudy(StudyRow(id, creator, form));
    r := AddCreatorAndLog(db, ledger, p, id, creator, form, memberError, appended);
  }

  /** A stored title is non-empty and trimmed. */
  lemma TitleNormalised(title: string)
    requires !IsBlank(title)
    ensures Trim(title) != "" && Trim(Trim(title)) == Trim(title)
  {
    TrimEmptyIffBlank(title);
    TrimIdempotent(title);
  }

  /** A stored description is absent or non-empty and trimmed; a non-blank one is kept. */
  lemma DescriptionNormalised(description: Option<string>)
    ensures var d := StoredDescription(description);
      && (d.Some? ==> d.value != "" && Trim(d.value) == d.value)
      && (d.None? <==> description.None? || IsBlank(description.value))
  {
    if description.Some? {
      TrimEmptyIffBlank(description.value);
      TrimIdempotent(description.value);
      assert description.value == "" ==> IsBlank(description.value);
    }
  }

  /**
   * A stored study has a non-empty trimmed title, a description that is absent or non-empty and
   * trimmed, and a non-empty status that defaults to draft; the status is whatever text was sent.
   */
  lemma StudyRowNormalised(id: Id, creator: Id, form: StudyForm)
    requires !TitleMissing(form.title)
    ensures var row := StudyRow(id, creator, form);
      && row.title != "" && Trim(row.title) == row.title
      && (row.description.Some? ==> row.description.value != "" && Trim(row.description.value) == row.description.value)
      && (row.description.None? <==> form.description.None? || IsBlank(form.description.value))
      && row.status != ""
      && (form.status.None? || form.status == Some("") ==> row.status == DEFAULT_STATUS)
      && (form.status.Some? && form.status.value != "" ==> row.status == form.status.value)
      && row.createdBy == creator
  {
    TitleNormalised(form.title.value);
    DescriptionNormalised(form.description);
  }

  /** The length of an object's text when its third of four members changes value. */
  lemma FourMemberText(m0: Member, m1: Member, key: string, v: Value, m3: Member)
    ensures |Stringify(JObject([m0, m1, Member(key, v), m3]))| ==
      |MemberText(m0.key, Stringify(m0.value))| + |MemberText(m1.key, Stringify(m1.value))| +
      |Quote(key)| + |Stringify(v)| + |MemberText(m3.key, Stringify(m3.value))| + 6
  {
    var m2 := Member(key, v);
    assert [m0, m1, m2, m3] == [m0] + ([m1] + ([m2] + [m3]));
    StringifyMembersCons(m2, [m3]);
    StringifyMembersCons(m1, [m2] + [m3]);
    StringifyMembersCons(m0, [m1] + ([m2] + [m3]));
  }

  /** Objects that differ only in the length of their third member's text have different texts. */
  lemma ThirdMemberLengthDiffers(m0: Member, m1: Member, key: string, v: Value, w: Value, m3: Member)
    requires |Stringify(v)| != |Stringify(w)|
    ensures Stringify(JObject([m0, m1, Member(key, v), m3])) != Stringify(JObject([m0, m1, Member(key, w), m3]))
  {
    FourMemberText(m0, m1, key, v, m3);
    FourMemberText(m0, m1, key, w, m3);
  }

  /** The state texts of a blank description and of none differ: `""` against `null`. */
  lemma BlankDescriptionText(id: Id, form: StudyForm, blank: string)
    requires form.title.Some? && blank != "" && IsBlank(blank)
    ensures HashedDescription(Some(blank)) == JStr("")
    ensures HashText(StateObject(id, form.(description := Some(blank)))) !=
            HashText(StateObject(id, form.(description := None)))
  {
    TrimEmptyIffBlank(blank);
    var m0 := Member("study_id", JStr(id));
    var m1 := Member("title", JStr(Trim(form.title.value)));
    var m3 := Member("status", JStr(StatusField(form.status)));
    var empty, none := JStr(""), JNull;
    assert |Stringify(empty)| == 2 && |Stringify(none)| == 4;
    ThirdMemberLengthDiffers(m0, m1, "description", empty, none, m3);
  }

  /**
   * A whitespace-only description is stored as null, exactly like no description, but the state
   * hash covers it as the empty string: with a collision-free digest the two forms give the same
   * study row and different audit hashes.
   */
  lemma BlankDescriptionHashDiverges(p: Primitives, id: Id, creator: Id, form: StudyForm, blank: string)
    requires CollisionFree(p) && !TitleMissing(form.title)
    requires blank != "" && IsBlank(blank)
    ensures var spaced := form.(description := Some(blank));
      var absent := form.(description := None);
      && StudyRow(id, creator, spaced) == StudyRow(id, creator, absent)
      && HashedDescription(spaced.description) == JStr("")
      && HashedDescription(absent.description) == JNull
      && GenerateHash(p, StateObject(id, spaced)) != GenerateHash(p, StateObject(id, absent))
  {
    var spaced := form.(description := Some(blank));
    var absent := form.(description := None);
    DescriptionNormalised(Some(blank));
    BlankDescriptionText(id, form, blank);
    if GenerateHash(p, StateObject(id, spaced)) == GenerateHash(p, StateObject(id, absent)) {
      GenerateHashInjective(p, StateObject(id, spaced), StateObject(id, absent));
    }
  }
}
