/** More of what a merge keeps: one plan, every record accounted for, and an output that can be written. */
module MergeFacts {
  import opened Bytes
  import opened Headers
  import opened MergePlan
  import opened MergePass
  import opened MergeMeaning
  import opened Parsing
  import Raw

  // ---------------------------------------------------------------------------------------------
  // The plan
  // ---------------------------------------------------------------------------------------------

  /** No identifier is dropped in favour of two different ones. */
  ghost predicate Unambiguous(c: Catalogue)
    requires c.Valid()
  {
    forall a: nat, b: nat, id | a < |c.keys| && b < |c.keys| && Drops(c, a, id) && Drops(c, b, id) ::
      c.ids[Kept(c, a)].value == c.ids[Kept(c, b)].value
  }

  /** Two tables of redirects agree where what they redirect to is unambiguous. */
  lemma RedirectsAgree(c: Catalogue, a: map<bytes, bytes>, b: map<bytes, bytes>)
    requires c.Valid() && Unambiguous(c) && RedirectsFor(c, {}, [], a) && RedirectsFor(c, {}, [], b)
    ensures a == b
  {
    hide Kept, NormalizeId;
    forall id | id in a
      ensures id in b && a[id] == b[id]
    {
      var n: nat :| n < |c.keys| && Done(c, {}, [], n) && Targets(c, n, id, a[id]);
      assert Drops(c, n, id);
      var k: nat :| k < |c.keys| && Done(c, {}, [], k) && Targets(c, k, id, b[id]);
    }
    forall id | id in b
      ensures id in a
    {
      var k: nat :| k < |c.keys| && Done(c, {}, [], k) && Targets(c, k, id, b[id]);
      assert Drops(c, k, id);
    }
  }

  /**
   * The plan does not depend on the order the groups are visited in, just when no identifier is
   * shared by dropped records that different ones are kept for.
   */
  lemma PlanIsDetermined(c: Catalogue, infos: seq<Raw.Record>, firstRecords: nat)
    requires c.Valid() && |infos| == |c.keys|
    ensures (forall a, b | IsOrder(a, c.keys) && IsOrder(b, c.keys) ::
               PlanIn(c, infos, firstRecords, a) == PlanIn(c, infos, firstRecords, b)) <==>
            Unambiguous(c)
  {
    hide Unambiguous, IsOrder, RedirectsIn, IsPlan, PlanIn;
    if Unambiguous(c) {
      forall a, b | IsOrder(a, c.keys) && IsOrder(b, c.keys)
        ensures PlanIn(c, infos, firstRecords, a) == PlanIn(c, infos, firstRecords, b)
      {
        PlanInIsPlan(c, infos, firstRecords, a);
        PlanInIsPlan(c, infos, firstRecords, b);
        PlanRedirects(c, infos, firstRecords, a);
        PlanRedirects(c, infos, firstRecords, b);
        PlansAgree(c, infos, PlanIn(c, infos, firstRecords, a), PlanIn(c, infos, firstRecords, b));
      }
    } else {
      var a, b := OrdersDiffer(c);
      PlanRedirects(c, infos, firstRecords, a);
      PlanRedirects(c, infos, firstRecords, b);
    }
  }

  lemma PlanRedirects(c: Catalogue, infos: seq<Raw.Record>, firstRecords: nat, order: seq<GroupKey>)
    requires c.Valid() && |infos| == |c.keys|
    ensures PlanIn(c, infos, firstRecords, order).redirects == RedirectsIn(c, order)
    ensures PlanIn(c, infos, firstRecords, order).firstRecords == firstRecords
  {
    hide RedirectsIn;
  }

  lemma PlansAgree(c: Catalogue, infos: seq<Raw.Record>, a: Plan, b: Plan)
    requires IsPlan(c, infos, a) && IsPlan(c, infos, b) && a.firstRecords == b.firstRecords && Unambiguous(c)
    ensures a == b
  {
    hide RedirectsFor, ActionFor, DifferencesOf, Kept, KeySet, Unambiguous;
    RedirectsAgree(c, a.redirects, b.redirects);
    assert a.actions == b.actions;
  }

  /** Where an identifier is dropped in favour of two, the group visited last decides. */
  lemma OrdersDiffer(c: Catalogue) returns (x: seq<GroupKey>, y: seq<GroupKey>)
    requires c.Valid() && !Unambiguous(c)
    ensures IsOrder(x, c.keys) && IsOrder(y, c.keys) && RedirectsIn(c, x) != RedirectsIn(c, y)
  {
    hide Unambiguous, RedirectsIn, Kept, NormalizeId;
    var a, b, id := Ambiguity(c);
    x := OrderEndingIn(c.keys, c.keys[a]);
    y := OrderEndingIn(c.keys, c.keys[b]);
    LastGroupWins(c, x, a, id);
    LastGroupWins(c, y, b, id);
    var v, w := c.ids[Kept(c, a)].value, c.ids[Kept(c, b)].value;
    assert ([SP] + v)[1..] == v && ([SP] + w)[1..] == w;
  }

  lemma OrderEndingIn(keys: seq<GroupKey>, key: GroupKey) returns (order: seq<GroupKey>)
    requires key in KeySet(keys)
    ensures IsOrder(order, keys) && order != [] && order[|order| - 1] == key
  {
    hide KeySet, Lists;
    var others := KeySet(keys) - {key};
    var rest := Listed(others);
    ListsOneMore(rest, others, key);
    order := rest + [key];
    assert others + {key} == KeySet(keys);
  }

  lemma {:induction false} Listed(keys: set<GroupKey>) returns (order: seq<GroupKey>)
    ensures Lists(order, keys)
    decreases keys
  {
    hide Lists;
    if keys == {} {
      NoneListed();
      order := [];
    } else {
      var key :| key in keys;
      var rest := Listed(keys - {key});
      ListsOneMore(rest, keys - {key}, key);
      assert keys - {key} + {key} == keys;
      order := rest + [key];
    }
  }

  lemma LastGroupWins(c: Catalogue, order: seq<GroupKey>, m: nat, id: bytes)
    requires c.Valid() && m < |c.keys| && Drops(c, m, id)
    requires order != [] && order[|order| - 1] == c.keys[m]
    ensures id in RedirectsIn(c, order) && RedirectsIn(c, order)[id] == [SP] + c.ids[Kept(c, m)].value
  {
    hide RedirectEach, Members, Drops, Kept;
    var members := Members(c.keys, c.keys[m], |c.keys|);
    assert m in members && forall i | 0 <= i < |members| :: members[i] in members;
    GroupRedirects(c, members, RedirectsIn(c, order[..|order| - 1]), m, id);
  }

  /** A group redirects an identifier it drops to the one record it keeps. */
  lemma {:induction false} GroupRedirects(c: Catalogue, members: seq<nat>, before: map<bytes, bytes>, m: nat, id: bytes)
    requires c.Valid() && m < |c.keys| && Drops(c, m, id) && m in members
    requires forall i | 0 <= i < |members| :: members[i] < |c.keys| && c.keys[members[i]] == c.keys[m]
    ensures var after := RedirectEach(c, members, before);
            id in after && after[id] == [SP] + c.ids[Kept(c, m)].value
    decreases |members|
  {
    hide Kept, NormalizeId;
    var rest, last := members[..|members| - 1], members[|members| - 1];
    assert members == rest + [last];
    SameKept(c, last, m);
    if m in rest {
      GroupRedirects(c, rest, before, m, id);
    } else {
      assert last == m;
    }
  }

  lemma Ambiguity(c: Catalogue) returns (a: nat, b: nat, id: bytes)
    requires c.Valid() && !Unambiguous(c)
    ensures a < |c.keys| && b < |c.keys| && Drops(c, a, id) && Drops(c, b, id)
    ensures c.ids[Kept(c, a)].value != c.ids[Kept(c, b)].value
  {
    hide Kept;
    a, b, id :| a < |c.keys| && b < |c.keys| && Drops(c, a, id) && Drops(c, b, id)
                && c.ids[Kept(c, a)].value != c.ids[Kept(c, b)].value;
  }

  /** Where identifiers are unique but for copies of one record, there is one plan. */
  lemma UniqueIdsAreUnambiguous(m: Merge)
    requires m.UniqueIds()
    ensures Unambiguous(m.Catalogue())
  {
    hide Kept, NormalizeId, RecordId, Warcinfos, KeyOf, DateOf;
    var c := m.Catalogue();
    forall a: nat, b: nat, id | a < |c.keys| && b < |c.keys| && Drops(c, a, id) && Drops(c, b, id)
      ensures c.ids[Kept(c, a)].value == c.ids[Kept(c, b)].value
    {
      assert Names(m.Infos(), a, id) && Names(m.Infos(), b, id);
      SameKept(c, a, b);
    }
  }

  /** Each group has one record emitted, where its first stood: its earliest dated, or first to arrive. */
  lemma OneEmittedPerGroup(c: Catalogue, infos: seq<Raw.Record>, plan: Plan, i: nat)
    requires IsPlan(c, infos, plan) && i < |infos|
    ensures exists l: nat, k: nat | l < |infos| && k < |infos| ::
              && c.keys[l] == c.keys[k] == c.keys[i]
              && plan.actions[l] == Emit(infos[k])
              && forall m: nat | m < |infos| && c.keys[m] == c.keys[i] ::
                   (m == l || (l < m && plan.actions[m] == Skip(l, c.ids[k]))) && (m == k || Sooner(c, k, m))
  {
    hide RedirectsFor, DifferencesOf, KeySet, Soonest, Sooner;
    var l, k := Leader(c, i), Kept(c, i);
    SameKept(c, i, i);
    assert plan.actions[l] == ActionFor(c, infos, l);
    forall m: nat | m < |infos| && c.keys[m] == c.keys[i]
      ensures (m == l || (l < m && plan.actions[m] == Skip(l, c.ids[k]))) && (m == k || Sooner(c, k, m))
    {
      SameKept(c, m, i);
      assert plan.actions[m] == ActionFor(c, infos, m);
    }
  }

  // ---------------------------------------------------------------------------------------------
  // Every record is accounted for
  // ---------------------------------------------------------------------------------------------

  lemma {:induction false} OnePerKey(m: Merge, n: nat)
    requires n <= |m.Infos()|
    ensures |m.Emissions(n)| == |KeySet(m.Catalogue().keys[..n])|
  {
    hide Merge.Emitted, Merge.Infos, KeySet, KeyOf, DateOf, RecordId, Leader;
    var keys := m.Catalogue().keys;
    if n == 0 {
      assert keys[..0] == [];
      NoKeys();
    } else {
      OnePerKey(m, n - 1);
      assert keys[..n] == keys[..n - 1] + [keys[n - 1]];
      SetGrows(keys[..n - 1], keys[n - 1]);
      LeadsIfNew(m.Catalogue(), n - 1);
      var before := KeySet(keys[..n - 1]);
      assert keys[n - 1] in before ==> before + {keys[n - 1]} == before;
    }
  }

  lemma NoKeys()
    ensures KeySet([]) == {}
  {
  }

  /** A record leads its group just when its key is new. */
  lemma LeadsIfNew(c: Catalogue, i: nat)
    requires i < |c.keys|
    ensures Leader(c, i) == i <==> c.keys[i] !in KeySet(c.keys[..i])
  {
    var l := Leader(c, i);
    if l < i {
      assert c.keys[..i][l] == c.keys[i];
    }
    if c.keys[i] in KeySet(c.keys[..i]) {
      var j :| 0 <= j < i && c.keys[..i][j] == c.keys[i];
      assert l <= j;
    }
  }

  /** Every record read is written or counted as merged, and every group has one warcinfo record written. */
  lemma MergeAccounts(m: Merge, end: State, outs: seq<Raw.Record>)
    requires m.Valid() && m.After(|m.Records()|) == Success((end, outs))
    ensures |outs| + end.merged == |m.Records()|
    ensures |Warcinfos(outs)| == m.plan.distinct
  {
    hide Warcinfos, Merge.Emissions, Merge.Tracks, KeySet, KeyOf, DateOf, RecordId, Step, ActionFor, RedirectsFor, DifferencesOf;
    var all := |m.Records()|;
    PassTracks(m, all);
    AllRead(m, end, outs);
    OnePerKey(m, |m.Infos()|);
    assert m.Catalogue().keys[..|m.Infos()|] == m.Catalogue().keys;
    Counted(m, all, end, outs);
  }

  lemma Counted(m: Merge, k: nat, s: State, outs: seq<Raw.Record>)
    requires k <= |m.Records()| && m.Tracks(k, s, outs)
    ensures |outs| + s.merged == k
  {
  }

  // ---------------------------------------------------------------------------------------------
  // The output can be written
  // ---------------------------------------------------------------------------------------------

  /** The values of the fields that declare a length. */
  function Lengths(fields: Fields): seq<bytes> {
    if fields == [] then []
    else
      Lengths(fields[..|fields| - 1])
      + if Raw.IsContentLength(fields[|fields| - 1].name) then [fields[|fields| - 1].value] else []
  }

  predicate WellFormed(fields: Fields) {
    forall i | 0 <= i < |fields| :: IsToken(fields[i].name) && IsFolded(fields[i].value)
  }

  lemma {:induction false} LengthsConcat(a: Fields, b: Fields)
    ensures Lengths(a + b) == Lengths(a) + Lengths(b)
    decreases |b|
  {
    hide Raw.IsContentLength;
    if b == [] {
      assert a + b == a;
    } else {
      assert (a + b)[..|a + b| - 1] == a + b[..|b| - 1];
      LengthsConcat(a, b[..|b| - 1]);
    }
  }

  lemma {:induction false} ValidatedFrom(fields: Fields, i: nat, declared: Option<nat>, n: nat)
    requires i <= |fields|
    ensures Raw.ValidateFrom(fields, i, declared) == Success(n) <==>
            && WellFormed(fields[i..])
            && (if declared.Some? then Lengths(fields[i..]) == [] && declared.value == n
                else |Lengths(fields[i..])| == 1 && Raw.LengthOf(Lengths(fields[i..])[0]) == Success(n))
    decreases |fields| - i
  {
    hide Raw.IsContentLength, Raw.LengthOf, IsToken, IsFolded;
    if i < |fields| {
      var rest := fields[i + 1..];
      assert fields[i..] == [fields[i]] + rest;
      assert [fields[i]][..0] == [];
      LengthsConcat([fields[i]], rest);
      WellFormedCons(fields[i], rest);
      ValidatedFrom(fields, i + 1, declared, n);
      var length := Raw.LengthOf(fields[i].value);
      if Raw.IsContentLength(fields[i].name) && length.Success? {
        ValidatedFrom(fields, i + 1, Some(length.value), n);
      }
    }
  }

  lemma WellFormedCons(field: Raw.Field, rest: Fields)
    ensures WellFormed([field] + rest) <==> IsToken(field.name) && IsFolded(field.value) && WellFormed(rest)
  {
    hide IsToken, IsFolded;
    var all := [field] + rest;
    assert all[0] == field && forall i | 0 <= i < |rest| :: all[i + 1] == rest[i];
  }

  /** Fields with the same lengths declare the same length. */
  lemma SameLengthsValid(a: Fields, b: Fields, record: Raw.Record, version: Raw.Version)
    requires record.header.fields == a && Raw.ValidateRecord(record).Success?
    requires WellFormed(b) && Lengths(b) == Lengths(a)
    ensures Raw.ValidateRecord(Raw.Record(Raw.Header(version, b), record.body)).Success?
  {
    hide Raw.ValidateFrom, Lengths, WellFormed, Raw.LengthOf;
    var n := Raw.ValidateFrom(a, 0, None).value;
    assert a[0..] == a && b[0..] == b;
    ValidatedFrom(a, 0, None, n);
    ValidatedFrom(b, 0, None, n);
  }

  lemma ValidIsWellFormed(record: Raw.Record)
    requires Raw.ValidateRecord(record).Success?
    ensures WellFormed(record.header.fields)
  {
    hide Raw.ValidateFrom, Lengths, WellFormed, Raw.LengthOf;
    var fields := record.header.fields;
    assert fields[0..] == fields;
    ValidatedFrom(fields, 0, None, Raw.ValidateFrom(fields, 0, None).value);
  }

  /** A reference, or a file's name, declares no length. */
  lemma NoLengthName(name: bytes)
    ensures IsReference(name) || EqIgnoreCase(name, WARC_FILENAME) ==> !Raw.IsContentLength(name)
  {
    assert WARC_REFERS_TO[0] == 87;
  }

  lemma LengthsOfOne(field: Raw.Field)
    ensures Lengths([field]) == if Raw.IsContentLength(field.name) then [field.value] else []
    ensures WellFormed([field]) <==> IsToken(field.name) && IsFolded(field.value)
  {
    hide Raw.IsContentLength, IsToken, IsFolded;
    assert [field][..0] == [];
    assert WellFormed([field]) ==> IsToken([field][0].name) && IsFolded([field][0].value);
  }

  lemma WellFormedConcat(a: Fields, b: Fields)
    ensures WellFormed(a + b) <==> WellFormed(a) && WellFormed(b)
  {
    hide IsToken, IsFolded;
    assert forall i | 0 <= i < |a| :: (a + b)[i] == a[i];
    assert forall i | 0 <= i < |b| :: (a + b)[|a| + i] == b[i];
  }

  lemma WarcinfoIdIsToken()
    ensures IsToken(WARC_WARCINFO_ID)
  {
    var name := WARC_WARCINFO_ID;
    assert name[0] == 87 && name[1] == 65 && name[2] == 82 && name[3] == 67 && name[4] == 45 && name[5] == 87;
    assert name[6] == 97 && name[7] == 114 && name[8] == 99 && name[9] == 105 && name[10] == 110 && name[11] == 102;
    assert name[12] == 111 && name[13] == 45 && name[14] == 73 && name[15] == 68;
  }

  lemma {:induction false} RedirectedLengths(fields: Fields, redirects: map<bytes, bytes>)
    requires forall id | id in redirects :: IsFolded(redirects[id])
    ensures Lengths(RedirectedAll(fields, redirects)) == Lengths(fields)
    ensures WellFormed(fields) ==> WellFormed(RedirectedAll(fields, redirects))
    decreases |fields|
  {
    hide IsReference, Raw.IsContentLength, NormalizeId, IsFolded, IsToken, EqIgnoreCase;
    if fields != [] {
      var after := RedirectedAll(fields, redirects);
      assert after[..|after| - 1] == RedirectedAll(fields[..|fields| - 1], redirects);
      RedirectedLengths(fields[..|fields| - 1], redirects);
      NoLengthName(fields[|fields| - 1].name);
    }
  }

  lemma RenamedLast(fields: Fields, filename: Option<bytes>)
    ensures fields == [] ==> Renamed(fields, filename) == []
    ensures fields != [] ==>
              var before, last := Renamed(fields[..|fields| - 1], filename), fields[|fields| - 1];
              Renamed(fields, filename) ==
              before + if !EqIgnoreCase(last.name, WARC_FILENAME) then [last]
                       else if filename.Some? then [Raw.Field(last.name, filename.value)]
                       else []
  {
    hide EqIgnoreCase;
  }

  lemma {:induction false} RenamedLengths(fields: Fields, filename: Option<bytes>)
    requires filename.Some? ==> IsFolded(filename.value)
    ensures Lengths(Renamed(fields, filename)) == Lengths(fields)
    ensures WellFormed(fields) ==> WellFormed(Renamed(fields, filename))
    decreases |fields|
  {
    hide EqIgnoreCase, Raw.IsContentLength, IsFolded, IsToken, WellFormed, Lengths, Renamed;
    RenamedLast(fields, filename);
    if fields != [] {
      var init, last := fields[..|fields| - 1], fields[|fields| - 1];
      RenamedLengths(init, filename);
      NoLengthName(last.name);
      assert fields == init + [last];
      LengthsConcat(init, [last]);
      WellFormedConcat(init, [last]);
      LengthsOfOne(last);
      var renamed := if filename.Some? then Raw.Field(last.name, filename.value) else last;
      LengthsOfOne(renamed);
      LengthsConcat(Renamed(init, filename), [last]);
      WellFormedConcat(Renamed(init, filename), [last]);
      LengthsConcat(Renamed(init, filename), [renamed]);
      WellFormedConcat(Renamed(init, filename), [renamed]);
      assert Renamed(init, filename) + [] == Renamed(init, filename);
    }
  }

  lemma InsertedLengths(fields: Fields, value: bytes)
    requires IsFolded(value)
    ensures Lengths(Inserted(fields, WARCINFO_ID_RANK, value)) == Lengths(fields)
    ensures WellFormed(fields) ==> WellFormed(Inserted(fields, WARCINFO_ID_RANK, value))
  {
    hide InsertPosition, Raw.IsContentLength, IsFolded, IsToken, EqIgnoreCase, IsReference, WellFormed, Lengths;
    NamesApart();
    NoLengthName(WARC_WARCINFO_ID);
    WarcinfoIdIsToken();
    var p := InsertPosition(fields, WARCINFO_ID_RANK, 0);
    var field := Raw.Field(WARC_WARCINFO_ID, value);
    LengthsOfOne(field);
    assert fields == fields[..p] + fields[p..];
    LengthsConcat(fields[..p], fields[p..]);
    LengthsConcat(fields[..p], [field]);
    LengthsConcat(fields[..p] + [field], fields[p..]);
    WellFormedConcat(fields[..p], fields[p..]);
    WellFormedConcat(fields[..p], [field]);
    WellFormedConcat(fields[..p] + [field], fields[p..]);
  }

  // Trimming a value cuts no fold in two.

  lemma TrimmedStartIsFolded(v: bytes)
    requires IsFolded(v)
    ensures IsFolded(TrimAsciiStart(v))
  {
    var t := TrimAsciiStart(v);
    var d := |v| - |t|;
    forall i | 0 <= i < |t|
      ensures !Stray(t, i)
    {
      assert !Stray(v, d + i);
    }
  }

  lemma TrimmedEndIsFolded(v: bytes)
    requires IsFolded(v)
    ensures IsFolded(TrimAsciiEnd(v))
  {
    var t := TrimAsciiEnd(v);
    forall i | 0 <= i < |t|
      ensures !Stray(t, i)
    {
      assert !Stray(v, i);
      assert t[|t| - 1] == v[|t| - 1];
    }
  }

  lemma SpacedIsFolded(v: bytes)
    requires IsFolded(v)
    ensures IsFolded([SP] + v)
  {
    var t := [SP] + v;
    forall i | 0 <= i < |t|
      ensures !Stray(t, i)
    {
      if i > 0 {
        assert !Stray(v, i - 1);
      }
    }
  }

  lemma {:induction false} FoundIsFolded(fields: Fields, name: bytes)
    requires WellFormed(fields)
    ensures Get(fields, name).Some? ==> IsFolded(Get(fields, name).value)
  {
    hide EqIgnoreCase, IsFolded, IsToken;
    if fields != [] {
      FoundIsFolded(fields[1..], name);
    }
  }

  lemma {:induction false} WarcinfosAreValid(records: seq<Raw.Record>)
    requires AllValid(records)
    ensures AllValid(Warcinfos(records))
    decreases |records|
  {
    hide Raw.ValidateRecord, IsWarcinfo;
    if records != [] {
      WarcinfosAreValid(records[..|records| - 1]);
    }
  }

  /** The identifier of a record that is kept, written as a value, can be written. */
  lemma KeptIdIsFolded(m: Merge, n: nat)
    requires AllValid(m.Records()) && n < |m.Infos()|
    ensures var c := m.Catalogue(); c.ids[Kept(c, n)].Some? ==> IsFolded([SP] + c.ids[Kept(c, n)].value)
    ensures Kept(m.Catalogue(), n) < |m.Infos()| && Raw.ValidateRecord(m.Infos()[Kept(m.Catalogue(), n)]).Success?
  {
    hide Raw.ValidateRecord, Warcinfos, IsFolded, KeyOf, DateOf, Kept, Get, TrimAsciiStart, TrimAsciiEnd, WellFormed;
    WarcinfosAreValid(m.Records());
    var k := Kept(m.Catalogue(), n);
    var record := m.Infos()[k];
    assert m.Catalogue().ids[k] == RecordId(record);
    if RecordId(record).Some? {
      ValidIsWellFormed(record);
      FoundIsFolded(record.header.fields, WARC_RECORD_ID);
      var value := Get(record.header.fields, WARC_RECORD_ID).value;
      TrimmedStartIsFolded(value);
      TrimmedEndIsFolded(TrimAsciiStart(value));
      SpacedIsFolded(TrimAscii(value));
    }
  }

  lemma RedirectsAreFolded(m: Merge)
    requires m.Valid() && AllValid(m.Records())
    ensures forall id | id in m.plan.redirects :: IsFolded(m.plan.redirects[id])
  {
    hide Merge.Valid, Merge.Infos, IsFolded, Merge.Catalogue, Kept, NormalizeId;
    forall id | id in m.plan.redirects
      ensures IsFolded(m.plan.redirects[id])
    {
      var d := RedirectOf(m, id);
      KeptIdIsFolded(m, d);
    }
  }

  lemma PublishedIsValid(m: Merge, record: Raw.Record)
    requires Raw.ValidateRecord(record).Success? && (m.filename.Some? ==> IsFolded(m.filename.value))
    requires forall id | id in m.plan.redirects :: IsFolded(m.plan.redirects[id])
    ensures Raw.ValidateRecord(Published(m.plan, m.filename, record)).Success?
  {
    hide Raw.ValidateRecord, Renamed, RedirectedAll, WellFormed, Lengths, IsFolded;
    var fields := record.header.fields;
    ValidIsWellFormed(record);
    RenamedLengths(fields, m.filename);
    RedirectedLengths(Renamed(fields, m.filename), m.plan.redirects);
    SameLengthsValid(fields, RedirectedAll(Renamed(fields, m.filename), m.plan.redirects), record, record.header.version);
  }

  lemma AssociatedIsValid(m: Merge, s: State, record: Raw.Record)
    requires Raw.ValidateRecord(record).Success? && Associated(m.plan, s, record).Success?
    requires s.input.Some? && s.input.value.id.Some? ==> IsFolded([SP] + s.input.value.id.value)
    requires forall id | id in m.plan.redirects :: IsFolded(m.plan.redirects[id])
    ensures Raw.ValidateRecord(Associated(m.plan, s, record).value).Success?
  {
    hide Raw.ValidateRecord, Inserted, RedirectedAll, WellFormed, Lengths, IsFolded, Get;
    var fields, redirects, version := record.header.fields, m.plan.redirects, record.header.version;
    ValidIsWellFormed(record);
    RedirectedLengths(fields, redirects);
    SameLengthsValid(fields, RedirectedAll(fields, redirects), record, version);
    if s.input.Some? && s.input.value.id.Some? {
      var inserted := Inserted(fields, WARCINFO_ID_RANK, [SP] + s.input.value.id.value);
      InsertedLengths(fields, [SP] + s.input.value.id.value);
      RedirectedLengths(inserted, redirects);
      SameLengthsValid(fields, RedirectedAll(inserted, redirects), record, version);
    }
  }

  lemma StepIsValid(m: Merge, k: nat, s: State, outs: seq<Raw.Record>, step: (State, Option<Raw.Record>))
    requires m.Valid() && AllValid(m.Records()) && (m.filename.Some? ==> IsFolded(m.filename.value))
    requires k < |m.Records()| && m.Tracks(k, s, outs)
    requires Step(m.plan, m.filename, k, s, m.Records()[k]) == Success(step) && step.1.Some?
    ensures Raw.ValidateRecord(step.1.value).Success?
  {
    hide Merge.Valid, Merge.Infos, Merge.Catalogue, Raw.ValidateRecord, IsFolded, IsWarcinfo, Kept, Leader, Published,
      Associated, Latest, RecordId, Merge.Emissions, Merge.LastLeader, Warcinfos;
    RedirectsAreFolded(m);
    var latest := Latest(m.Records(), m.StartFor(k), k);
    if IsWarcinfo(m.Records()[k].header) {
      WarcinfoAt(m.Records(), k);
      InfosAreWarcinfos(m);
      PlannedFor(m, s.next);
      KeptIdIsFolded(m, s.next);
      PublishedIsValid(m, m.Infos()[Kept(m.Catalogue(), s.next)]);
    } else {
      if latest.Some? {
        KeptIdIsFolded(m, latest.value);
      }
      AssociatedIsValid(m, Entering(m.plan, k, s), m.Records()[k]);
    }
  }

  lemma InfosAreWarcinfos(m: Merge)
    ensures m.Infos() == Warcinfos(m.Records())
  {
  }

  /**
   * Whatever a merge of valid records makes can be written: no rewriting splits a field in two or
   * disturbs the declared length. A sink that does not fail takes the whole merge.
   */
  lemma {:induction false} MergedIsValid(m: Merge, k: nat)
    requires m.Valid() && AllValid(m.Records()) && (m.filename.Some? ==> IsFolded(m.filename.value))
    requires k <= |m.Records()| && m.After(k).Success?
    ensures AllValid(m.After(k).value.1)
    decreases k
  {
    hide Merge.Valid, Merge.Tracks, Raw.ValidateRecord, IsFolded, Step, Merge.Records;
    if k == 0 {
      NothingTracked(m);
    } else {
      MergedExtends(m.plan, m.filename, m.Records(), k - 1, k);
      MergedIsValid(m, k - 1);
      PassTracks(m, k - 1);
      MergedStep(m.plan, m.filename, m.Records(), k - 1);
      var before := m.After(k - 1).value;
      var step := Step(m.plan, m.filename, k - 1, before.0, m.Records()[k - 1]).value;
      if step.1.Some? {
        StepIsValid(m, k - 1, before.0, before.1, step);
      }
    }
  }
}
