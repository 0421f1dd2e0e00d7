/** The standard names are told apart. */
module LensNames {
  import opened Bytes
  import opened Headers
  import opened Lens

  /** The length of a standard name, and an octet that tells it from the others of that length. */
  function Mark(f: nat): (nat, nat, byte)
    requires f < EXTENSION
  {
    if f == TYPE then (9, 5, 84)
    else if f == DATE then (9, 5, 68)
    else if f == PROFILE then (12, 0, 87)
    else if f == CONTENT_TYPE then (12, 0, 67)
    else if f == FILENAME then (13, 5, 70)
    else if f == PROTOCOL then (13, 5, 80)
    else if f == RECORD_ID then (14, 7, 99)
    else if f == REFERS_TO then (14, 7, 102)
    else if f == TRUNCATED then (14, 7, 117)
    else if f == CONTENT_LENGTH then (14, 7, 45)
    else if f == TARGET_URI then (15, 5, 84)
    else if f == IP_ADDRESS then (15, 5, 73)
    else if f == WARCINFO_ID then (16, 0, 87)
    else if f == BLOCK_DIGEST then (17, 0, 87)
    else if f == CONCURRENT_TO then (18, 0, 87)
    else if f == REFERS_TO_DATE then (19, 5, 82)
    else if f == PAYLOAD_DIGEST then (19, 5, 80)
    else if f == SEGMENT_NUMBER then (19, 5, 83)
    else if f == SEGMENT_ORIGIN_ID then (22, 0, 87)
    else if f == REFERS_TO_TARGET_URI then (25, 5, 82)
    else if f == SEGMENT_TOTAL_LENGTH then (25, 5, 83)
    else (28, 0, 87)
  }

  predicate HasMark(name: bytes, mark: (nat, nat, byte)) {
    |name| == mark.0 && mark.1 < |name| && ToLower(name[mark.1]) == ToLower(mark.2)
  }

  lemma NameHasMark(f: nat)
    requires f < EXTENSION
    ensures HasMark(STANDARD_NAMES[f], Mark(f))
  {
  }

  /** Marks of different fields differ in length, or at the same octet. */
  lemma MarksDiffer(a: nat, b: nat)
    requires a < EXTENSION && b < EXTENSION && a != b
    ensures Mark(a).0 != Mark(b).0 || (Mark(a).1 == Mark(b).1 && ToLower(Mark(a).2) != ToLower(Mark(b).2))
  {
  }

  lemma {:induction false} RankFromIs(f: nat, k: nat)
    requires k <= f < EXTENSION
    ensures RankFrom(STANDARD_NAMES[f], k) == Some(f)
    decreases f - k
  {
    hide Mark, STANDARD_NAMES;
    NamesCount();
    if k == f {
      SameName(STANDARD_NAMES[f]);
    } else {
      NameHasMark(f);
      NameHasMark(k);
      MarksDiffer(f, k);
      OthersDiffer(STANDARD_NAMES[f], STANDARD_NAMES[k], Mark(f), Mark(k));
      RankFromIs(f, k + 1);
    }
  }

  lemma NamesCount()
    ensures |STANDARD_NAMES| == EXTENSION
  {
  }

  lemma SameName(name: bytes)
    ensures EqIgnoreCase(name, name)
  {
  }

  lemma OthersDiffer(a: bytes, b: bytes, x: (nat, nat, byte), y: (nat, nat, byte))
    requires HasMark(a, x) && HasMark(b, y)
    requires x.0 != y.0 || (x.1 == y.1 && ToLower(x.2) != ToLower(y.2))
    ensures !EqIgnoreCase(a, b)
  {
  }

  /** A standard name is the name of its field. */
  lemma StandardNameKey(f: nat)
    requires f < EXTENSION
    ensures KeyOf(STANDARD_NAMES[f]) == f
  {
    hide STANDARD_NAMES, RankFrom;
    RankFromIs(f, 0);
  }
}
