/** The write as callers reach it: their record checked and converted, their limit resolved, then the journal's write. */
module JournalApi {
  import opened Bytes
  import opened SessionRecord
  import opened RecordValidation
  import opened JournalStore
  import opened ScanFailure
  import opened JournalProtocol
  import opened JournalWriter

  const DEFAULT_RECORDS: nat := 64

  /** No limit of its own means the default. */
  function EffectiveLimit(maximum: nat): nat { if maximum == 0 then DEFAULT_RECORDS else maximum }

  /** ulk_session_journal_write_v1: an input it does not accept is refused before the lock is taken. */
  method WriteRecord(
    journal: Journal, handle: Handle, c: Client, p: PublicRecord, ghost others: map<Client, Phase>)
    returns (outcome: Option<Outcome>)
    requires journal.Open(c, others) || Unscannable(journal.f, journal.files)
    modifies journal
    ensures old(journal.Open(c, others)) ==> journal.Valid() && journal.Continues() && journal.Idle(others)
    ensures outcome.None? <==> !HandleValid(handle) || !ValidPublic(p)
    ensures outcome.None? ==> journal.files == old(journal.files)
    ensures outcome.Some? && old(journal.Open(c, others)) ==>
              FromPublic(p).Some? &&
              WriteMeans(journal.f, old(journal.files), journal.files, FromPublic(p).value, EffectiveLimit(handle.maximumRecords),
                         outcome.value)
    ensures outcome.Some? ==> (Unscannable(journal.f, old(journal.files)) <==> outcome.value.Unreadable?)
    ensures outcome.Some? && outcome.value.Unreadable? ==>
              journal.files == old(journal.files) && Caused(journal.f, journal.files, Failed(outcome.value.incompatible))
  {
    if !HandleValid(handle) {
      return None;
    }
    var ok := ValidateRecord(p);
    if !ok {
      return None;
    }
    AcceptedConverts(p);
    var request := FromPublic(p);
    var result := journal.Write(c, request.value, EffectiveLimit(handle.maximumRecords), others);
    outcome := Some(result);
  }
}
