/** The record file format the journal actually uses, and the journal's promises for it. */
module DiskFormat {
  import opened Bytes
  import Crc32
  import opened SessionRecord
  import opened DiskRecord
  import opened DiskDamage
  import opened JournalStore
  import opened ScanFailure

  const V2 := Format(Serialize, Parse)

  /** What the journal writes it reads back, and never refuses for its size. */
  lemma V2ReadsBack()
    ensures ReadsBack(V2)
  {
    forall r | Fits(r) && r.commitOrder > 0
      ensures |V2.emit(r)| <= MAX_FILE_BYTES && V2.parse(V2.emit(r)) == Ok(r)
    {
      SerializedFits(r);
      ParseSerialize(r);
    }
  }

  /** A sealed file that names a version of its own. */
  function FutureFile(version: Text): Text { Seal(Crc32.Value, version + ['|']) }

  lemma FutureIsIncompatible(version: Text)
    requires VERSION_PREFIX <= version && version != VERSION_1 && version != VERSION_2
    requires Lacks(version, '|') && Lacks(version, NUL) && |version| <= MAX_FILE_BYTES - 10
    ensures ReadRecord(V2, FutureFile(version)) == Incompatible
  {
    assert Plain([version]) && Join([version], '|') == version;
    UnsealFields(Crc32.Value, [version]);
  }

  const VERSION_3: Text := "ULK_SESSION_RECORD_V3"

  /** There is such a version. */
  lemma VersionThree()
    ensures VERSION_PREFIX <= VERSION_3 && VERSION_3 != VERSION_1 && VERSION_3 != VERSION_2
    ensures Lacks(VERSION_3, '|') && Lacks(VERSION_3, NUL) && |VERSION_3| <= MAX_FILE_BYTES - 10
  {}

  /** The reason does depend on the order in a directory of the actual format: an empty record file beside a later version's. */
  lemma ReasonCanDiffer(version: Text, a: Text, b: Text) returns (dir: Directory)
    requires VERSION_PREFIX <= version && version != VERSION_1 && version != VERSION_2
    requires Lacks(version, '|') && Lacks(version, NUL) && |version| <= MAX_FILE_BYTES - 10
    requires IsRecordName(a) && IsRecordName(b) && a != b
    ensures dir == map[a := [], b := FutureFile(version)]
    ensures Fails(V2, dir) && TwoCauses(V2, dir) && !ReasonFixed(V2, dir)
  {
    dir := map[a := [], b := FutureFile(version)];
    FutureIsIncompatible(version);
    assert CorruptAt(V2, dir, a) && IncompatibleAt(V2, dir, b);
    var names, names' := TwoReasons(V2, dir);
    ReasonIndependence(V2, dir);
  }

  /** For instance, a file of the next version. */
  lemma ReasonDiffersOnDisk() returns (dir: Directory)
    ensures dir == map["a.session" := [], "b.session" := FutureFile(VERSION_3)]
    ensures Fails(V2, dir) && !ReasonFixed(V2, dir)
  {
    VersionThree();
    dir := ReasonCanDiffer(VERSION_3, "a.session", "b.session");
  }
}
