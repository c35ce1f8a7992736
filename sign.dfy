/**
 * Signing a record (`handleSign` in `components/records/sign-record-button.tsx`). The signer
 * must be signed in, type a password and re-authenticate with it; then a signature hash over the
 * record id, version, signer, intent and the current time is inserted as a signature row, and
 * an approval additionally sets the record's status to approved. The status update is a second,
 * separate write whose result is not checked, and the hashed time is not stored with the row.
 */
module Sign {
  import opened Wrappers
  import opened Text
  import opened Types
  import opened Crypto
  import opened Store

  /** The `record` prop: the version being signed. */
  datatype RecordRef = RecordRef(id: Id, recordNumber: string, version: int, status: string)

  /** What the insert of the signature row did; the table fills in the id and the signing time. */
  datatype SignInsert = SignInsertFailed(message: string) | SignInserted(id: Id, signedAt: int)

  const AUTH_REQUIRED: string := "Authentication required. Please sign in again."
  const PASSWORD_REQUIRED: string := "Password is required to create a signature."
  const INVALID_CREDENTIALS: string := "Invalid login credentials"
  const INVALID_PASSWORD: string := "Invalid password."
  const SIGN_FAILED: string := "Failed to create signature"

  /** The message shown for a failed re-authentication. */
  function ReauthText(message: string): (t: string)
    ensures message == INVALID_CREDENTIALS ==> t == INVALID_PASSWORD
    ensures message != INVALID_CREDENTIALS ==> t == message
  {
    if message == INVALID_CREDENTIALS then INVALID_PASSWORD else message
  }

  /** `err.message || 'Failed to create signature'`. */
  function FailureText(message: string): (t: string)
    ensures t != ""
    ensures message != "" ==> t == message
  {
    if message == "" then SIGN_FAILED else message
  }

  /** The signature row as stored: the inserted fields plus what the table filled in. */
  function SignatureRow(
    inserted: SignInsert, record: RecordRef, signerId: Id, intent: SignatureIntent, signatureHash: string,
    ipAddress: Option<string>, userAgent: Option<string>): Signature
    requires inserted.SignInserted?
  {
    Signature(
      id := inserted.id,
      recordId := record.id,
      recordVersion := record.version,
      signerId := signerId,
      intent := intent,
      signatureHash := signatureHash,
      signedAt := inserted.signedAt,
      ipAddress := ipAddress,
      userAgent := userAgent)
  }

  /**
   * `handleSign`. `user` is the signed-in user (`None` also when the lookup reported an error);
   * `reauthError` is the message of a failed re-authentication; `timestamp` is the ISO time read
   * from the clock; `ipAddress` and `userAgent` are what the lookups gave; `statusUpdated` says
   * whether the unchecked status update changed anything. The result is the error shown, if any.
   */
  method SignRecord(
    db: Database, p: Primitives, record: RecordRef, intent: SignatureIntent,
    user: Option<Id>, password: string, reauthError: Option<string>, timestamp: string,
    ipAddress: Option<string>, userAgent: Option<string>, inserted: SignInsert, statusUpdated: bool)
    returns (error: Option<string>)
    modifies db
    ensures db.studies == old(db.studies) && db.members == old(db.members)
    ensures user.None? ==>
      error == Some(AUTH_REQUIRED) && db.records == old(db.records) && db.signatures == old(db.signatures)
    ensures user.Some? && IsBlank(password) ==>
      error == Some(PASSWORD_REQUIRED) && db.records == old(db.records) && db.signatures == old(db.signatures)
    ensures user.Some? && !IsBlank(password) && reauthError.Some? ==>
      error == Some(ReauthText(reauthError.value)) && db.records == old(db.records) && db.signatures == old(db.signatures)
    ensures user.Some? && !IsBlank(password) && reauthError.None? && inserted.SignInsertFailed? ==>
      error == Some(FailureText(inserted.message)) && db.records == old(db.records) && db.signatures == old(db.signatures)
    ensures user.Some? && !IsBlank(password) && reauthError.None? && inserted.SignInserted? ==>
      && error.None?
      && db.signatures == old(db.signatures) + [SignatureRow(inserted, record, user.value, intent,
           GenerateSignatureHash(p, record.id, record.version, user.value, IntentName(intent), timestamp),
           ipAddress, userAgent)]
      && db.records == (if intent == Approval && statusUpdated then SetStatus(old(db.records), record.id, Approved)
                        else old(db.records))
    ensures old(db.Valid()) ==> db.Valid()
  {
    if user.None? {
      return Some(AUTH_REQUIRED);
    }
    // `!password.trim()`
    TrimEmptyIffBlank(password);
    if Trim(password) == "" {
      return Some(PASSWORD_REQUIRED);
    }
    if reauthError.Some? {
      return Some(ReauthText(reauthError.value));
    }
    var signerId := user.value;
    var signatureHash := GenerateSignatureHash(p, record.id, record.version, signerId, IntentName(intent), timestamp);
    if inserted.SignInsertFailed? {
      return Some(FailureText(inserted.message));
    }
    db.InsertSignature(SignatureRow(inserted, record, signerId, intent, signatureHash, ipAddress, userAgent));
    if intent == Approval && statusUpdated {
      db.UpdateStatus(record.id, Approved);
    }
    error := None;
  }

  /**
   * A stored signature binds the record id, version, signer and intent it was made for, but not
   * the time that was hashed with them: with a collision-free digest, the row's hash verifies
   * against its own fields exactly when the verifier supplies that same time, which the row does
   * not hold.
   */
  lemma StoredSignatureNeedsHashedTime(
    p: Primitives, inserted: SignInsert, record: RecordRef, signerId: Id, intent: SignatureIntent,
    timestamp: string, ipAddress: Option<string>, userAgent: Option<string>, claimed: string)
    requires CollisionFree(p) && inserted.SignInserted?
    ensures var row := SignatureRow(inserted, record, signerId, intent,
        GenerateSignatureHash(p, record.id, record.version, signerId, IntentName(intent), timestamp), ipAddress, userAgent);
      && row.recordId == record.id && row.recordVersion == record.version
      && row.signerId == signerId && row.intent == intent
      && (VerifySignature(p, row.signatureHash, row.recordId, row.recordVersion, row.signerId, IntentName(row.intent), claimed)
          <==> claimed == timestamp)
  {
    VerifyDetectsTampering(p, record.id, record.version, signerId, IntentName(intent), timestamp,
                              record.id, record.version, signerId, IntentName(intent), claimed);
  }

  /**
   * A stored signature verifies for none of the other intents: with a collision-free digest the
   * intent is bound by the hash.
   */
  lemma StoredSignatureBindsIntent(
    p: Primitives, record: RecordRef, signerId: Id, intent: SignatureIntent, other: SignatureIntent, timestamp: string)
    requires CollisionFree(p) && other != intent
    ensures !VerifySignature(p, GenerateSignatureHash(p, record.id, record.version, signerId, IntentName(intent), timestamp),
                             record.id, record.version, signerId, IntentName(other), timestamp)
  {
    IntentsClosed(intent);
    IntentsClosed(other);
    VerifyDetectsTampering(p, record.id, record.version, signerId, IntentName(intent), timestamp,
                              record.id, record.version, signerId, IntentName(other), timestamp);
  }

  /**
   * An approval makes every stored row with the record's id approved, whatever its status was
   * (rejected and amended included), and changes nothing else.
   */
  lemma ApprovalOverridesAnyStatus(records: seq<Record>, id: Id)
    ensures var after := SetStatus(records, id, Approved);
      && (forall i :: 0 <= i < |records| && records[i].id == id ==> after[i] == records[i].(status := Approved))
      && (forall i :: 0 <= i < |records| && records[i].id != id ==> after[i] == records[i])
  {
  }
}
