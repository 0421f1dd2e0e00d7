/**
 * A merge on which the order of a hash map shows: two records are dropped that share an identifier,
 * for which different ones are kept (`crates/archivindex-warc-ops/src/merge.rs:188-235`).
 */
module SharedNames {
  import opened Bytes
  import opened Headers
  import opened MergePlan
  import opened MergeMeaning
  import opened MergeFacts
  import MergePass
  import Parsing
  import Radix
  import Raw

  /** An identifier as it is compared. */
  predicate IsPlain(id: bytes) {
    id != [] && TrimAscii(id) == id && NormalizeId(id) == id
  }

  /** A warcinfo record of an identifier and a body of one octet. */
  function Info(id: bytes, body: byte): Raw.Record {
    Raw.Record(
      Raw.Header(Raw.V1_1, [
        Raw.Field(WARC_TYPE, Ascii("warcinfo")), Raw.Field(WARC_RECORD_ID, id), Raw.Field(Raw.CONTENT_LENGTH, [49])]),
      [body])
  }

  /** Two records that differ, and copies of both in another file, which share one identifier there. */
  datatype Example = Example(a: bytes, b: bytes, shared: bytes, x: byte, y: byte)

  predicate AreApart(w: Matching, n: Example) {
    && IsPlain(n.a) && IsPlain(n.b) && IsPlain(n.shared) && n.a != n.b && n.a != n.shared && n.b != n.shared
    && KeyOf(w, Info(n.a, n.x)) != KeyOf(w, Info(n.a, n.y))
  }

  function First(n: Example): (records: seq<Raw.Record>)
    ensures |records| == 2
  {
    [Info(n.a, n.x), Info(n.b, n.y)]
  }

  function Second(n: Example): (records: seq<Raw.Record>)
    ensures |records| == 2
  {
    [Info(n.shared, n.x), Info(n.shared, n.y)]
  }

  // ---------------------------------------------------------------------------------------------
  // What the plan reads of these records
  // ---------------------------------------------------------------------------------------------

  lemma NamesDiffer()
    ensures !EqIgnoreCase(WARC_TYPE, WARC_RECORD_ID) && !EqIgnoreCase(WARC_RECORD_ID, WARC_TYPE)
    ensures !EqIgnoreCase(WARC_TYPE, WARC_DATE) && !EqIgnoreCase(WARC_RECORD_ID, WARC_DATE)
    ensures !EqIgnoreCase(Raw.CONTENT_LENGTH, WARC_DATE)
    ensures EqIgnoreCase(WARC_TYPE, WARC_TYPE) && EqIgnoreCase(WARC_RECORD_ID, WARC_RECORD_ID)
    ensures IsIncidental(WARC_RECORD_ID)
  {
    assert WARC_TYPE[5] == 84 && WARC_DATE[5] == 68;
  }

  lemma InfoIsWarcinfo(id: bytes, body: byte)
    ensures IsWarcinfo(Info(id, body).header)
  {
    hide Ascii, TrimAscii, EqIgnoreCase;
    NamesDiffer();
    WarcinfoTrims();
    assert Get(Info(id, body).header.fields, WARC_TYPE) == Some(Ascii("warcinfo"));
  }

  lemma WarcinfoTrims()
    ensures TrimAscii(Ascii("warcinfo")) == Ascii("warcinfo")
    ensures EqIgnoreCase(Ascii("warcinfo"), Ascii("warcinfo"))
  {
    var name := Ascii("warcinfo");
    assert name[0] == 119 && name[7] == 111;
  }

  lemma InfoIs(w: Matching, id: bytes, other: bytes, body: byte)
    requires IsPlain(id)
    ensures RecordId(Info(id, body)) == Some(id) && DateOf(w, Info(id, body)) == None
    ensures KeyOf(w, Info(id, body)) == KeyOf(w, Info(other, body))
  {
    hide TrimAscii, NormalizeId, Stripped, Ascii, EqIgnoreCase, IsIncidental;
    NamesDiffer();
    var p, q := Info(id, body).header.fields, Info(other, body).header.fields;
    assert Get(p, WARC_RECORD_ID) == Get(p[1..], WARC_RECORD_ID) == Some(id);
    assert Get(p, WARC_DATE) == Get(p[1..], WARC_DATE) == Get(p[1..][1..], WARC_DATE) == Get(p[1..][1..][1..], WARC_DATE) == None;
    assert p[1..] == [p[1], p[2]] && p[1..][1..] == [p[2]] && [p[2]][1..] == [];
    assert q[1..] == [q[1], q[2]] && q[1..][1..] == [q[2]];
    assert MatchingFields(p[1..]) == MatchingFields(q[1..]);
  }

  /** The catalogue of the four records, two groups of two. */
  lemma CatalogueIs(w: Matching, n: Example)
    requires AreApart(w, n)
    ensures Warcinfos(First(n)) == First(n) && Warcinfos(Second(n)) == Second(n)
    ensures Warcinfos(First(n) + Second(n)) == First(n) + Second(n)
    ensures var c := CatalogueOf(w, First(n) + Second(n));
            && |c.keys| == 4 && c.keys[0] == c.keys[2] && c.keys[1] == c.keys[3] && c.keys[0] != c.keys[1]
            && c.dates == [None, None, None, None]
            && c.ids == [Some(n.a), Some(n.b), Some(n.shared), Some(n.shared)]
  {
    hide KeyOf, DateOf, RecordId, IsWarcinfo, Info, IsPlain, Warcinfos;
    InfoIs(w, n.a, n.shared, n.x);
    InfoIs(w, n.b, n.shared, n.y);
    InfoIs(w, n.shared, n.a, n.x);
    InfoIs(w, n.shared, n.a, n.y);
    AllInfos(First(n), n);
    AllInfos(Second(n), n);
    WarcinfosConcat(First(n), Second(n));
  }

  lemma AllInfos(records: seq<Raw.Record>, n: Example)
    requires records == First(n) || records == Second(n)
    ensures Warcinfos(records) == records
  {
    hide IsWarcinfo, Info;
    InfoIsWarcinfo(n.a, n.x);
    InfoIsWarcinfo(n.b, n.y);
    InfoIsWarcinfo(n.shared, n.x);
    InfoIsWarcinfo(n.shared, n.y);
    var one := records[..1];
    assert one[..0] == [] && Warcinfos(one) == one;
  }

  /** Of two undated copies, the first to arrive is kept. */
  lemma FirstIsKept(c: Catalogue, a: nat, b: nat)
    requires c.Valid() && a < b < |c.keys| && c.keys[a] == c.keys[b] && c.dates[a] == c.dates[b] == None
    requires forall m: nat | m < |c.keys| && c.keys[m] == c.keys[a] :: m == a || m == b
    ensures Kept(c, a) == a && Kept(c, b) == a
  {
    hide Kept, Group;
    SameKept(c, a, b);
  }

  /** The records of the first file are kept, and those of the second dropped under the name they share. */
  lemma SharedAreDropped(w: Matching, n: Example)
    requires AreApart(w, n)
    ensures var c := CatalogueOf(w, First(n) + Second(n));
            && |c.keys| == 4 && Kept(c, 0) == Kept(c, 2) == 0 && Kept(c, 1) == Kept(c, 3) == 1
            && Drops(c, 2, n.shared) && Drops(c, 3, n.shared)
            && forall i: nat | i < 4 :: !Orphaned(c, i)
  {
    hide Kept, Group, KeyOf, DateOf, RecordId, First, Second, NormalizeId, TrimAscii, Warcinfos, CatalogueOf;
    CatalogueIs(w, n);
    var c := CatalogueOf(w, First(n) + Second(n));
    FirstIsKept(c, 0, 2);
    FirstIsKept(c, 1, 3);
  }

  // ---------------------------------------------------------------------------------------------
  // What comes of it
  // ---------------------------------------------------------------------------------------------

  /**
   * For two orders of the groups, references by the shared name are redirected to different records;
   * and in no order do all references resolve to the copies kept of what they name.
   */
  lemma SharedNameIsAmbiguous(w: Matching, n: Example, filename: Option<bytes>) returns (p: seq<GroupKey>, q: seq<GroupKey>)
    requires AreApart(w, n)
    ensures var c := CatalogueOf(w, First(n) + Second(n));
            && IsOrder(p, c.keys) && IsOrder(q, c.keys)
            && n.shared in RedirectsIn(c, p) && RedirectsIn(c, p)[n.shared] == [SP] + n.a
            && n.shared in RedirectsIn(c, q) && RedirectsIn(c, q)[n.shared] == [SP] + n.b
            && !Unambiguous(c)
    ensures forall order | IsOrder(order, CatalogueOf(w, First(n) + Second(n)).keys) ::
              var infos := First(n) + Second(n);
              var m := Merge(w, First(n), Second(n), PlanIn(CatalogueOf(w, infos), infos, 2, order), filename);
              && m.Valid() && !m.Consistent()
              && exists k: nat, id | k < |m.Infos()| && Names(m.Infos(), k, id) :: !Resolves(m, k, id)
  {
    hide Kept, KeyOf, DateOf, RecordId, First, Second, NormalizeId, RedirectsIn, IsOrder, PlanIn, Drops, Orphaned, IsPlan, Resolves,
      IsPlain, Warcinfos;
    var infos := First(n) + Second(n);
    var c := CatalogueOf(w, infos);
    CatalogueIs(w, n);
    SharedAreDropped(w, n);
    p := OrderEndingIn(c.keys, c.keys[2]);
    LastGroupWins(c, p, 2, n.shared);
    q := OrderEndingIn(c.keys, c.keys[3]);
    LastGroupWins(c, q, 3, n.shared);
    forall order | IsOrder(order, c.keys)
      ensures var m := Merge(w, First(n), Second(n), PlanIn(c, infos, 2, order), filename);
              && m.Valid() && !m.Consistent()
              && exists k: nat, id | k < |m.Infos()| && Names(m.Infos(), k, id) :: !Resolves(m, k, id)
    {
      var m := Merge(w, First(n), Second(n), PlanIn(c, infos, 2, order), filename);
      PlanInIsPlan(c, infos, 2, order);
      PlanRedirects(c, infos, 2, order);
      assert m.Catalogue() == c && m.Infos() == infos;
      DroppedIsNamed(m, 3, n.shared);
      RedirectsResolve(m);
    }
  }

  // ---------------------------------------------------------------------------------------------
  // One such merge
  // ---------------------------------------------------------------------------------------------

  /** A merge told to let no field vary, of bodies that are no field lists. */
  const STRICT: Matching := Matching([], (body: bytes) => false, (date: bytes, version: Raw.Version) => None)

  /** Records named `A` and `B`, whose bodies differ, and copies of both named `C`. */
  const LETTERS: Example := Example([65], [66], [67], 97, 98)

  lemma LetterIsPlain(b: byte)
    requires 65 <= b <= 90
    ensures IsPlain([b])
  {
    hide TrimAsciiStart, TrimAsciiEnd;
    NotTrimmed([b]);
  }

  lemma NotTrimmed(v: bytes)
    requires v != [] && !IsAsciiSpace(v[0]) && !IsAsciiSpace(v[|v| - 1])
    ensures TrimAsciiStart(v) == v && TrimAsciiEnd(v) == v
  {
  }

  lemma LettersAreApart()
    ensures AreApart(STRICT, LETTERS)
  {
    hide IsPlain, MatchingFields, Stripped;
    LetterIsPlain(65);
    LetterIsPlain(66);
    LetterIsPlain(67);
  }

  /** Its records can be written as they are. */
  lemma InfoIsValid(id: bytes, body: byte)
    requires Parsing.IsFolded(id)
    ensures Raw.ValidateRecord(Info(id, body)).Success?
  {
    hide Raw.LengthOf, IsToken, Parsing.IsFolded, Raw.IsContentLength;
    var fields := Info(id, body).header.fields;
    TypeIsToken();
    IdIsToken();
    OneIsLength();
    Raw.ValidateAt(fields, 0, None);
    Raw.ValidateAt(fields, 1, None);
    Raw.ValidateAt(fields, 2, None);
    Raw.ValidateEnds(fields, Some(1));
  }

  lemma TypeIsToken()
    ensures IsToken(WARC_TYPE) && !Raw.IsContentLength(WARC_TYPE) && Parsing.IsFolded(Ascii("warcinfo"))
  {
    var name := WARC_TYPE;
    assert name[0] == 87 && name[1] == 65 && name[2] == 82 && name[3] == 67 && name[4] == 45 && name[5] == 84;
    assert name[6] == 121 && name[7] == 112 && name[8] == 101;
    var value: string := "warcinfo";
    assert forall i | 0 <= i < |value| :: value[i] in "warcinfo";
  }

  lemma IdIsToken()
    ensures IsToken(WARC_RECORD_ID) && !Raw.IsContentLength(WARC_RECORD_ID)
  {
    var name := WARC_RECORD_ID;
    assert name[0] == 87 && name[1] == 65 && name[2] == 82 && name[3] == 67 && name[4] == 45 && name[5] == 82;
    assert name[6] == 101 && name[7] == 99 && name[8] == 111 && name[9] == 114 && name[10] == 100 && name[11] == 45;
    assert name[12] == 73 && name[13] == 68;
  }

  lemma OneIsLength()
    ensures IsToken(Raw.CONTENT_LENGTH) && Raw.IsContentLength(Raw.CONTENT_LENGTH)
    ensures Parsing.IsFolded([49]) && Raw.LengthOf([49]) == Success(1)
  {
    var v: bytes := [49];
    assert Parsing.Trim(v) == v;
    Parsing.UnfoldPlain(v, 0);
    assert Raw.IsUtf8From(v, 1);
    assert v[..0] == [];
    Radix.DecimalTextReads(1);
  }

  lemma LettersAreValid()
    ensures MergePass.AllValid(First(LETTERS) + Second(LETTERS))
  {
    hide Raw.ValidateRecord, Info, Parsing.IsFolded;
    LetterIsFolded(65);
    LetterIsFolded(66);
    LetterIsFolded(67);
    InfoIsValid([65], 97);
    InfoIsValid([66], 98);
    InfoIsValid([67], 97);
    InfoIsValid([67], 98);
  }

  lemma LetterIsFolded(b: byte)
    requires 65 <= b <= 90
    ensures Parsing.IsFolded([b])
  {
  }

  /** A merge of valid records for which two orders of a map make two plans. */
  lemma LettersAreAmbiguous() returns (p: seq<GroupKey>, q: seq<GroupKey>)
    ensures var infos := First(LETTERS) + Second(LETTERS);
            var c := CatalogueOf(STRICT, infos);
            && MergePass.AllValid(infos) && IsOrder(p, c.keys) && IsOrder(q, c.keys) && RedirectsIn(c, p) != RedirectsIn(c, q)
  {
    hide AreApart, IsOrder, RedirectsIn, PlanIn, Unambiguous, Merge.Consistent, CatalogueOf, Resolves, Merge.Valid, First, Second,
      MergePass.AllValid;
    LettersAreApart();
    LettersAreValid();
    p, q := SharedNameIsAmbiguous(STRICT, LETTERS, None);
    NamesAreApart();
  }

  lemma NamesAreApart()
    ensures [SP] + LETTERS.a != [SP] + LETTERS.b
  {
    assert ([SP] + LETTERS.a)[1] != ([SP] + LETTERS.b)[1];
  }
}
