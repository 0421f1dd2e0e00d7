/** The first pass of a merge: which warcinfo records survive, and where (`crates/archivindex-warc-ops/src/merge.rs`). */
module MergePlan {
  import opened Bytes
  import opened Headers
  import Raw
  import Writer

  // ---------------------------------------------------------------------------------------------
  // Matching identities
  // ---------------------------------------------------------------------------------------------

  /**
   * What a caller may choose and what other parts decide: the body fields that may vary, whether a
   * body parses as `application/warc-fields`, and the instant a date value denotes under a version.
   */
  datatype Matching = Matching(
    ignored: seq<bytes>, isFields: bytes -> bool, instant: (bytes, Raw.Version) -> Option<int>)

  datatype GroupKey = GroupKey(version: Raw.Version, fields: multiset<Raw.Field>, body: bytes)

  predicate IsIncidental(name: bytes) {
    || EqIgnoreCase(name, WARC_RECORD_ID) || EqIgnoreCase(name, WARC_DATE) || EqIgnoreCase(name, WARC_FILENAME)
    || EqIgnoreCase(name, Ascii("WARC-Block-Digest")) || EqIgnoreCase(name, Ascii("WARC-Payload-Digest"))
    || EqIgnoreCase(name, Ascii("Content-Length"))
  }

  /** The fields that take part in matching, names lowered and values trimmed, in no order. */
  function MatchingFields(fields: Fields): multiset<Raw.Field> {
    if fields == [] then multiset{}
    else
      var field := fields[0];
      MatchingFields(fields[1..])
      + if IsIncidental(field.name) then multiset{} else multiset{Raw.Field(Lowered(field.name), TrimAscii(field.value))}
  }

  /** Where the content of the line at `start` ends, and where the next line begins. */
  function BodyLine(body: bytes, start: nat): (r: (nat, nat))
    requires start < |body|
    ensures start <= r.0 <= r.1 <= |body| && start < r.1
  {
    var feed := Find(body, LF, start);
    if feed == |body| then (|body|, |body|)
    else (if feed > start && body[feed - 1] == CR then feed - 1 else feed, feed + 1)
  }

  function Continued(body: bytes, cursor: nat): (r: nat)
    requires cursor <= |body|
    ensures cursor <= r <= |body|
    ensures r < |body| ==> !IsLws(body[r])
    decreases |body| - cursor
  {
    if cursor < |body| && IsLws(body[cursor]) then Continued(body, BodyLine(body, cursor).1) else cursor
  }

  predicate IsIgnored(line: bytes, ignored: seq<bytes>) {
    var name := TrimAsciiEnd(line[..Find(line, COLON, 0)]);
    EqIgnoreCase(name, Ascii("isPartOf")) || exists i | 0 <= i < |ignored| :: EqIgnoreCase(name, ignored[i])
  }

  /** The body from `cursor` on without the fields that are ignored, up to the first empty line. */
  function Stripped(body: bytes, cursor: nat, ignored: seq<bytes>): bytes
    requires cursor <= |body|
    decreases |body| - cursor
  {
    if cursor == |body| then []
    else
      var line := BodyLine(body, cursor);
      if line.0 == cursor then body[cursor..]
      else
        var next := Continued(body, line.1);
        (if IsIgnored(body[cursor..line.0], ignored) then [] else body[cursor..next]) + Stripped(body, next, ignored)
  }

  method SkipContinuations(body: bytes, start: nat) returns (cursor: nat)
    requires start <= |body|
    ensures cursor == Continued(body, start)
  {
    hide BodyLine;
    cursor := start;
    while cursor < |body| && IsLws(body[cursor])
      invariant start <= cursor <= |body|
      invariant Continued(body, cursor) == Continued(body, start)
    {
      var more := BodyLine(body, cursor);
      cursor := more.1;
    }
  }

  method BodyKey(w: Matching, body: bytes) returns (key: bytes)
    ensures key == if w.isFields(body) then Stripped(body, 0, w.ignored) else body
  {
    hide BodyLine, IsIgnored, Continued;
    if !w.isFields(body) {
      return body;
    }
    key := [];
    var cursor := 0;
    while cursor < |body|
      invariant cursor <= |body|
      invariant key + Stripped(body, cursor, w.ignored) == Stripped(body, 0, w.ignored)
    {
      var start := cursor;
      var line := BodyLine(body, cursor);
      if line.0 == start {
        key := key + body[cursor..];
        return;
      }
      cursor := SkipContinuations(body, line.1);
      ghost var field := if IsIgnored(body[start..line.0], w.ignored) then [] else body[start..cursor];
      ConcatAssociates(key, field, Stripped(body, cursor, w.ignored));
      assert key + [] == key;
      if !IsIgnored(body[start..line.0], w.ignored) {
        key := key + body[start..cursor];
      }
    }
  }

  function KeyOf(w: Matching, record: Raw.Record): GroupKey {
    GroupKey(
      record.header.version,
      MatchingFields(record.header.fields),
      if w.isFields(record.body) then Stripped(record.body, 0, w.ignored) else record.body)
  }

  function DateOf(w: Matching, record: Raw.Record): Option<int> {
    match Get(record.header.fields, WARC_DATE)
    case Some(value) => w.instant(TrimAscii(value), record.header.version)
    case None => None
  }

  // ---------------------------------------------------------------------------------------------
  // Groups
  // ---------------------------------------------------------------------------------------------

  /** What the plan reads of each warcinfo record, in stream order. */
  datatype Catalogue = Catalogue(keys: seq<GroupKey>, dates: seq<Option<int>>, ids: seq<Option<bytes>>) {
    ghost predicate Valid() {
      |dates| == |keys| && |ids| == |keys|
    }
  }

  function CatalogueOf(w: Matching, infos: seq<Raw.Record>): (c: Catalogue)
    ensures c.Valid() && |c.keys| == |infos|
  {
    Catalogue(
      seq(|infos|, i requires 0 <= i < |infos| => KeyOf(w, infos[i])),
      seq(|infos|, i requires 0 <= i < |infos| => DateOf(w, infos[i])),
      seq(|infos|, i requires 0 <= i < |infos| => RecordId(infos[i])))
  }

  /** The records before `n` with a key, in stream order. */
  function Members(keys: seq<GroupKey>, key: GroupKey, n: nat): (r: seq<nat>)
    requires n <= |keys|
    ensures forall m: nat :: m in r <==> m < n && keys[m] == key
    ensures forall a, b | 0 <= a < b < |r| :: r[a] < r[b]
  {
    if n == 0 then []
    else
      var rest := Members(keys, key, n - 1);
      assert forall a | 0 <= a < |rest| :: rest[a] in rest;
      rest + if keys[n - 1] == key then [n - 1] else []
  }

  function Group(c: Catalogue, i: nat): (r: seq<nat>)
    requires i < |c.keys|
    ensures forall m: nat :: m in r <==> m < |c.keys| && c.keys[m] == c.keys[i]
    ensures forall a, b | 0 <= a < b < |r| :: r[a] < r[b]
    ensures i in r
  {
    Members(c.keys, c.keys[i], |c.keys|)
  }

  /** The first record of a record's group. */
  function Leader(c: Catalogue, i: nat): (l: nat)
    requires i < |c.keys|
    ensures l <= i && c.keys[l] == c.keys[i]
    ensures forall m: nat | m < |c.keys| && c.keys[m] == c.keys[i] :: l <= m
  {
    assert Group(c, i)[0] in Group(c, i);
    Group(c, i)[0]
  }

  /** Dated before undated, then by date, then by arrival. */
  predicate Sooner(c: Catalogue, a: nat, b: nat)
    requires c.Valid() && a < |c.keys| && b < |c.keys|
  {
    var x, y := c.dates[a], c.dates[b];
    if x.Some? != y.Some? then x.Some?
    else if x.Some? && x.value != y.value then x.value < y.value
    else a < b
  }

  function Soonest(c: Catalogue, members: seq<nat>): (k: nat)
    requires c.Valid() && members != [] && forall m: nat | m in members :: m < |c.keys|
    ensures k in members
    ensures forall m: nat | m in members :: m == k || Sooner(c, k, m)
  {
    if |members| == 1 then members[0]
    else
      var rest, last := members[..|members| - 1], members[|members| - 1];
      assert members == rest + [last] && forall m: nat | m in members :: m in rest || m == last;
      assert forall m: nat | m in rest :: m in members;
      assert last in members;
      var k := Soonest(c, rest);
      if last == k || Sooner(c, k, last) then k else last
  }

  /** The record of a record's group that is kept. */
  function Kept(c: Catalogue, i: nat): (k: nat)
    requires c.Valid() && i < |c.keys|
    ensures k < |c.keys| && c.keys[k] == c.keys[i]
    ensures forall m: nat | m < |c.keys| && c.keys[m] == c.keys[i] :: m == k || Sooner(c, k, m)
  {
    Soonest(c, Group(c, i))
  }

  method EarliestOf(c: Catalogue, members: seq<nat>) returns (k: nat)
    requires c.Valid() && members != [] && forall m: nat | m in members :: m < |c.keys|
    ensures k == Soonest(c, members)
  {
    k := members[0];
    assert members[..1] == [members[0]];
    for i := 1 to |members|
      invariant forall m: nat | m in members[..i] :: m in members
      invariant k == Soonest(c, members[..i])
    {
      assert members[..i + 1][..i] == members[..i];
      assert forall m: nat | m in members[..i + 1] :: m in members;
      assert members[i] in members;
      if members[i] != k && !Sooner(c, k, members[i]) {
        k := members[i];
      }
    }
    assert members[..|members|] == members;
  }

  // ---------------------------------------------------------------------------------------------
  // Plans
  // ---------------------------------------------------------------------------------------------

  datatype Action = Emit(record: Raw.Record) | Skip(scope: nat, id: Option<bytes>)

  datatype Difference = DifferentVersions | DifferentFields | DifferentBodies

  datatype Plan = Plan(
    actions: seq<Action>, firstRecords: nat, redirects: map<bytes, bytes>, distinct: nat, differences: seq<Difference>)

  /** The ways merging the records of two inputs fails. */
  datatype Error =
    | MissingWarcinfoRecordId
    | WarcinfoRecordsChanged
    | UnscopedMergedRecord
    | NotWritten(error: Writer.Error)

  /** A record is dropped whose references cannot be redirected, as the one kept has no identifier. */
  ghost predicate Orphaned(c: Catalogue, m: nat)
    requires c.Valid() && m < |c.keys|
  {
    m != Kept(c, m) && c.ids[m].Some? && c.ids[Kept(c, m)].None?
  }

  /** References to `id` are references to the dropped record `m`. */
  ghost predicate Drops(c: Catalogue, m: nat, id: bytes)
    requires c.Valid() && m < |c.keys|
  {
    && m != Kept(c, m) && c.ids[m].Some? && c.ids[Kept(c, m)].Some?
    && NormalizeId(c.ids[m].value) == id != NormalizeId(c.ids[Kept(c, m)].value)
  }

  /** The record `m` is dealt with: its group is no longer to come, or it is in `dealt`. */
  ghost predicate Done(c: Catalogue, coming: set<GroupKey>, dealt: seq<nat>, m: nat)
    requires m < |c.keys|
  {
    c.keys[m] !in coming || m in dealt
  }

  /** The redirects owed to the records dealt with. */
  ghost predicate RedirectsFor(c: Catalogue, coming: set<GroupKey>, dealt: seq<nat>, redirects: map<bytes, bytes>)
    requires c.Valid()
  {
    && (forall m: nat, id | m < |c.keys| && Done(c, coming, dealt, m) && Drops(c, m, id) :: id in redirects)
    && (forall id | id in redirects ::
          exists m: nat | m < |c.keys| && Done(c, coming, dealt, m) :: Targets(c, m, id, redirects[id]))
  }

  ghost predicate Targets(c: Catalogue, m: nat, id: bytes, value: bytes)
    requires c.Valid() && m < |c.keys|
  {
    Drops(c, m, id) && value == [SP] + c.ids[Kept(c, m)].value
  }

  /** The redirects once the record `m` is dealt with, given those before it. */
  function Redirect(c: Catalogue, m: nat, redirects: map<bytes, bytes>): map<bytes, bytes>
    requires c.Valid() && m < |c.keys|
  {
    var kept := Kept(c, m);
    if m != kept && c.ids[m].Some? && c.ids[kept].Some? && NormalizeId(c.ids[m].value) != NormalizeId(c.ids[kept].value)
    then redirects[NormalizeId(c.ids[m].value) := [SP] + c.ids[kept].value]
    else redirects
  }

  /** The redirects once some records are dealt with in turn. */
  function RedirectEach(c: Catalogue, members: seq<nat>, redirects: map<bytes, bytes>): map<bytes, bytes>
    requires c.Valid() && forall i | 0 <= i < |members| :: members[i] < |c.keys|
  {
    if members == [] then redirects
    else Redirect(c, members[|members| - 1], RedirectEach(c, members[..|members| - 1], redirects))
  }

  /** The redirects that visiting the groups in some order leaves: a later group overrides an earlier one. */
  function RedirectsIn(c: Catalogue, order: seq<GroupKey>): map<bytes, bytes>
    requires c.Valid()
  {
    if order == [] then map[]
    else
      var members := Members(c.keys, order[|order| - 1], |c.keys|);
      assert forall i | 0 <= i < |members| :: members[i] in members;
      RedirectEach(c, members, RedirectsIn(c, order[..|order| - 1]))
  }

  /** The order lists each of some keys once. */
  ghost predicate Lists(order: seq<GroupKey>, keys: set<GroupKey>) {
    && (forall key :: key in order <==> key in keys)
    && forall i, j | 0 <= i < j < |order| :: order[i] != order[j]
  }

  lemma ListsOneMore(order: seq<GroupKey>, keys: set<GroupKey>, key: GroupKey)
    requires Lists(order, keys) && key !in keys
    ensures Lists(order + [key], keys + {key})
  {
    assert forall i | 0 <= i < |order| :: order[i] in order;
  }

  /** An order in which a map may hand out its groups. */
  ghost predicate IsOrder(order: seq<GroupKey>, keys: seq<GroupKey>) {
    Lists(order, KeySet(keys))
  }

  /** The plan made by visiting the groups in an order. */
  ghost function PlanIn(c: Catalogue, infos: seq<Raw.Record>, firstRecords: nat, order: seq<GroupKey>): Plan
    requires c.Valid() && |infos| == |c.keys|
  {
    Plan(
      seq(|infos|, i requires 0 <= i < |infos| => ActionFor(c, infos, i)),
      firstRecords, RedirectsIn(c, order), |KeySet(c.keys)|, DifferencesOf(c.keys))
  }

  function ActionFor(c: Catalogue, infos: seq<Raw.Record>, i: nat): Action
    requires c.Valid() && |infos| == |c.keys| && i < |infos|
  {
    if Leader(c, i) == i then Emit(infos[Kept(c, i)]) else Skip(Leader(c, i), c.ids[Kept(c, i)])
  }

  ghost predicate DiffersIn(keys: seq<GroupKey>, difference: Difference) {
    exists a, b | 0 <= a < |keys| && 0 <= b < |keys| :: Differ(keys[a], keys[b], difference)
  }

  predicate Differ(a: GroupKey, b: GroupKey, difference: Difference) {
    match difference
    case DifferentVersions => a.version != b.version
    case DifferentFields => a.fields != b.fields
    case DifferentBodies => a.body != b.body
  }

  ghost function DifferencesOf(keys: seq<GroupKey>): seq<Difference> {
    (if DiffersIn(keys, DifferentVersions) then [DifferentVersions] else [])
    + (if DiffersIn(keys, DifferentFields) then [DifferentFields] else [])
    + (if DiffersIn(keys, DifferentBodies) then [DifferentBodies] else [])
  }

  /** What a plan for some warcinfo records is, whatever order their groups are visited in. */
  ghost predicate IsPlan(c: Catalogue, infos: seq<Raw.Record>, plan: Plan) {
    && c.Valid() && |infos| == |c.keys| == |plan.actions|
    && (forall i | 0 <= i < |infos| :: plan.actions[i] == ActionFor(c, infos, i))
    && RedirectsFor(c, {}, [], plan.redirects)
    && plan.distinct == |KeySet(c.keys)|
    && plan.differences == DifferencesOf(c.keys)
  }

  function Warcinfos(records: seq<Raw.Record>): seq<Raw.Record> {
    if records == [] then []
    else
      Warcinfos(records[..|records| - 1])
      + if IsWarcinfo(records[|records| - 1].header) then [records[|records| - 1]] else []
  }

  method SelectWarcinfos(records: seq<Raw.Record>) returns (infos: seq<Raw.Record>)
    ensures infos == Warcinfos(records)
  {
    hide IsWarcinfo;
    infos := [];
    for i := 0 to |records|
      invariant infos == Warcinfos(records[..i])
    {
      assert records[..i + 1][..i] == records[..i];
      if IsWarcinfo(records[i].header) {
        infos := infos + [records[i]];
      }
    }
    assert records[..|records|] == records;
  }

  function KeySet(keys: seq<GroupKey>): set<GroupKey> {
    set i | 0 <= i < |keys| :: keys[i]
  }

  ghost predicate GroupedTo(keys: seq<GroupKey>, n: nat, groups: map<GroupKey, seq<nat>>)
    requires n <= |keys|
  {
    && groups.Keys == KeySet(keys[..n])
    && forall key | key in groups :: groups[key] == Members(keys, key, n)
  }

  ghost predicate Grouped(keys: seq<GroupKey>, groups: map<GroupKey, seq<nat>>) {
    && groups.Keys == KeySet(keys)
    && forall key | key in groups :: groups[key] == Members(keys, key, |keys|)
  }

  lemma GroupStep(keys: seq<GroupKey>, i: nat, groups: map<GroupKey, seq<nat>>)
    requires i < |keys| && GroupedTo(keys, i, groups)
    ensures GroupedTo(keys, i + 1, groups[keys[i] := (if keys[i] in groups then groups[keys[i]] else []) + [i]])
  {
    hide Members, KeySet;
    var key := keys[i];
    var after := groups[key := (if key in groups then groups[key] else []) + [i]];
    assert keys[..i + 1] == keys[..i] + [key];
    SetGrows(keys[..i], key);
    NoMembers(keys, key, i);
    forall k | k in after
      ensures after[k] == Members(keys, k, i + 1)
    {
      MembersStep(keys, k, i);
    }
  }

  lemma MembersStep(keys: seq<GroupKey>, key: GroupKey, n: nat)
    requires n < |keys|
    ensures Members(keys, key, n + 1) == Members(keys, key, n) + if key == keys[n] then [n] else []
  {
  }

  lemma NoMembers(keys: seq<GroupKey>, key: GroupKey, n: nat)
    requires n <= |keys|
    ensures key !in KeySet(keys[..n]) ==> Members(keys, key, n) == []
  {
    var members := Members(keys, key, n);
    if members != [] {
      assert members[0] in members;
      assert keys[..n][members[0]] in KeySet(keys[..n]);
    }
  }

  lemma SetGrows(keys: seq<GroupKey>, key: GroupKey)
    ensures KeySet(keys + [key]) == KeySet(keys) + {key}
  {
    forall k | k in KeySet(keys) + {key}
      ensures k in KeySet(keys + [key])
    {
      if k in KeySet(keys) {
        var i :| 0 <= i < |keys| && keys[i] == k;
        assert (keys + [key])[i] == k;
      } else {
        assert (keys + [key])[|keys|] == k;
      }
    }
  }

  method GroupRecords(c: Catalogue) returns (groups: map<GroupKey, seq<nat>>)
    ensures Grouped(c.keys, groups)
  {
    hide Members, KeySet, GroupedTo;
    groups := map[];
    NoneGrouped(c.keys);
    for i := 0 to |c.keys|
      invariant GroupedTo(c.keys, i, groups)
    {
      var key := c.keys[i];
      GroupStep(c.keys, i, groups);
      groups := groups[key := (if key in groups then groups[key] else []) + [i]];
    }
    AllGrouped(c.keys, groups);
  }

  lemma NoneGrouped(keys: seq<GroupKey>)
    ensures GroupedTo(keys, 0, map[])
  {
    hide Members;
    assert keys[..0] == [];
  }

  lemma AllGrouped(keys: seq<GroupKey>, groups: map<GroupKey, seq<nat>>)
    requires GroupedTo(keys, |keys|, groups)
    ensures Grouped(keys, groups)
  {
    hide Members, KeySet;
    assert keys[..|keys|] == keys;
  }

  /** Which parts differ between the first key a map is asked for, whichever that is, and any other. */
  method FindDifferences(keys: seq<GroupKey>, groups: map<GroupKey, seq<nat>>) returns (differences: seq<Difference>)
    requires Grouped(keys, groups)
    ensures differences == DifferencesOf(keys)
  {
    hide Members, Differ, DiffersIn, Grouped;
    differences := [];
    if |groups| == 0 {
      NothingDiffers(keys, groups);
      return;
    }
    assert groups.Keys != {};
    var first :| first in groups.Keys;
    AnyDiffers(keys, groups, first, DifferentVersions);
    if exists key | key in groups.Keys :: Differ(key, first, DifferentVersions) {
      differences := differences + [DifferentVersions];
    }
    AnyDiffers(keys, groups, first, DifferentFields);
    if exists key | key in groups.Keys :: Differ(key, first, DifferentFields) {
      differences := differences + [DifferentFields];
    }
    AnyDiffers(keys, groups, first, DifferentBodies);
    if exists key | key in groups.Keys :: Differ(key, first, DifferentBodies) {
      differences := differences + [DifferentBodies];
    }
  }

  lemma NothingDiffers(keys: seq<GroupKey>, groups: map<GroupKey, seq<nat>>)
    requires Grouped(keys, groups) && |groups| == 0
    ensures DifferencesOf(keys) == []
  {
    hide Members, Differ;
    SomeKey(keys);
  }

  lemma SomeKey(keys: seq<GroupKey>)
    ensures keys != [] ==> KeySet(keys) != {}
  {
    if keys != [] {
      assert keys[0] in KeySet(keys);
    }
  }

  /** Whichever key is taken as the first, some key differs from it just when two keys differ. */
  lemma AnyDiffers(keys: seq<GroupKey>, groups: map<GroupKey, seq<nat>>, first: GroupKey, difference: Difference)
    requires Grouped(keys, groups) && first in groups.Keys
    ensures (exists key | key in groups.Keys :: Differ(key, first, difference)) <==> DiffersIn(keys, difference)
  {
    hide Members;
    if exists key | key in groups.Keys :: Differ(key, first, difference) {
      var key :| key in groups.Keys && Differ(key, first, difference);
      var a :| 0 <= a < |keys| && keys[a] == key;
      var b :| 0 <= b < |keys| && keys[b] == first;
      assert Differ(keys[a], keys[b], difference);
    }
    if DiffersIn(keys, difference) {
      var a, b :| 0 <= a < |keys| && 0 <= b < |keys| && Differ(keys[a], keys[b], difference);
      assert keys[a] in groups.Keys && keys[b] in groups.Keys;
      assert Differ(keys[a], first, difference) || Differ(keys[b], first, difference);
    }
  }

  // ---------------------------------------------------------------------------------------------
  // Planning a group
  // ---------------------------------------------------------------------------------------------

  lemma KeptOf(c: Catalogue, key: GroupKey, m: nat)
    requires c.Valid() && m in Members(c.keys, key, |c.keys|)
    ensures m < |c.keys| && c.keys[m] == key
    ensures Group(c, m) == Members(c.keys, key, |c.keys|)
    ensures Kept(c, m) == Soonest(c, Group(c, m))
  {
    hide Soonest;
  }

  lemma OrphanOf(c: Catalogue, key: GroupKey, m: nat, kept: nat)
    requires c.Valid() && m in Members(c.keys, key, |c.keys|)
    requires kept == Soonest(c, Members(c.keys, key, |c.keys|))
    ensures m < |c.keys| && kept == Kept(c, m)
    ensures Orphaned(c, m) <==> m != kept && c.ids[m].Some? && c.ids[kept].None?
  {
    hide Soonest;
    KeptOf(c, key, m);
  }

  /** Dealing with one more record of a group adds at most the redirect owed to it. */
  lemma RedirectStep(c: Catalogue, coming: set<GroupKey>, dealt: seq<nat>, m: nat, before: map<bytes, bytes>)
    requires c.Valid() && m < |c.keys| && RedirectsFor(c, coming, dealt, before)
    ensures RedirectsFor(c, coming, dealt + [m], Redirect(c, m, before))
  {
    hide NormalizeId, Kept;
    var after := Redirect(c, m, before);
    forall n: nat, id | n < |c.keys| && Done(c, coming, dealt + [m], n) && Drops(c, n, id)
      ensures id in after
    {
      assert n == m || Done(c, coming, dealt, n);
    }
    forall id | id in after
      ensures exists n: nat | n < |c.keys| && Done(c, coming, dealt + [m], n) :: Targets(c, n, id, after[id])
    {
      if after != before && id == NormalizeId(c.ids[m].value) {
        assert Done(c, coming, dealt + [m], m) && Targets(c, m, id, after[id]);
      } else {
        var n: nat :| n < |c.keys| && Done(c, coming, dealt, n) && Targets(c, n, id, before[id]);
        assert Done(c, coming, dealt + [m], n) && Targets(c, n, id, after[id]);
      }
    }
  }

  lemma {:induction false} RedirectsEachFor(c: Catalogue, coming: set<GroupKey>, members: seq<nat>, redirects: map<bytes, bytes>)
    requires c.Valid() && RedirectsFor(c, coming, [], redirects)
    requires forall i | 0 <= i < |members| :: members[i] < |c.keys|
    ensures RedirectsFor(c, coming, members, RedirectEach(c, members, redirects))
    decreases |members|
  {
    hide RedirectsFor, Redirect;
    if members != [] {
      var rest, last := members[..|members| - 1], members[|members| - 1];
      RedirectsEachFor(c, coming, rest, redirects);
      RedirectStep(c, coming, rest, last, RedirectEach(c, rest, redirects));
      assert members == rest + [last];
    }
  }

  /** Visiting groups in any order leaves the redirects owed to their records. */
  lemma {:induction false} RedirectsInFor(c: Catalogue, order: seq<GroupKey>)
    requires c.Valid()
    ensures RedirectsFor(c, KeySet(c.keys) - KeySet(order), [], RedirectsIn(c, order))
    decreases |order|
  {
    hide RedirectsFor, RedirectEach, Members;
    if order == [] {
      assert KeySet(c.keys) - KeySet(order) == KeySet(c.keys);
      NothingDone(c, KeySet(c.keys));
    } else {
      var rest, last := order[..|order| - 1], order[|order| - 1];
      var coming, members := KeySet(c.keys) - KeySet(rest), Members(c.keys, last, |c.keys|);
      RedirectsInFor(c, rest);
      assert forall i | 0 <= i < |members| :: members[i] in members;
      RedirectsEachFor(c, coming, members, RedirectsIn(c, rest));
      assert order == rest + [last];
      SetGrows(rest, last);
      assert coming - {last} == KeySet(c.keys) - KeySet(order);
      DoneAlike(c, coming, last);
    }
  }

  /** Once the records of a group are dealt with, it is no longer to come. */
  lemma DoneAlike(c: Catalogue, coming: set<GroupKey>, key: GroupKey)
    ensures forall redirects | c.Valid() ::
              RedirectsFor(c, coming, Members(c.keys, key, |c.keys|), redirects) == RedirectsFor(c, coming - {key}, [], redirects)
  {
    hide Drops, Targets;
    var members := Members(c.keys, key, |c.keys|);
    assert forall m: nat | m < |c.keys| :: Done(c, coming, members, m) == Done(c, coming - {key}, [], m);
  }

  /** Whatever the order, what results is a plan. */
  lemma PlanInIsPlan(c: Catalogue, infos: seq<Raw.Record>, firstRecords: nat, order: seq<GroupKey>)
    requires c.Valid() && |infos| == |c.keys| && IsOrder(order, c.keys)
    ensures IsPlan(c, infos, PlanIn(c, infos, firstRecords, order))
  {
    hide RedirectsFor, RedirectsIn, ActionFor, DifferencesOf;
    RedirectsInFor(c, order);
    assert KeySet(c.keys) - KeySet(order) == {};
  }

  lemma RedirectOneMore(c: Catalogue, members: seq<nat>, j: nat, redirects: map<bytes, bytes>)
    requires c.Valid() && j < |members| && forall i | 0 <= i < |members| :: members[i] < |c.keys|
    ensures RedirectEach(c, members[..j + 1], redirects) == Redirect(c, members[j], RedirectEach(c, members[..j], redirects))
  {
    hide Redirect;
    assert members[..j + 1][..j] == members[..j];
  }

  lemma RedirectNone(c: Catalogue, members: seq<nat>, redirects: map<bytes, bytes>)
    requires c.Valid() && members == []
    ensures RedirectEach(c, members, redirects) == redirects
  {
  }

  method RedirectGroup(c: Catalogue, members: seq<nat>, kept: nat, known: map<bytes, bytes>, ghost key: GroupKey)
    returns (r: Result<map<bytes, bytes>, Error>)
    requires c.Valid() && members == Members(c.keys, key, |c.keys|) && members != []
    requires kept == Soonest(c, members)
    ensures forall i | 0 <= i < |members| :: members[i] < |c.keys|
    ensures r.Success? ==> r.value == RedirectEach(c, members, known)
    ensures r.Success? ==> forall m: nat | m in members :: m < |c.keys| && !Orphaned(c, m)
    ensures r.Failure? ==> r.error == MissingWarcinfoRecordId && exists m: nat | m < |c.keys| :: Orphaned(c, m)
  {
    hide Soonest, NormalizeId, Members, Group, Kept, Orphaned, RedirectEach;
    var redirects := known;
    InGroup(c, key);
    RedirectNone(c, members[..0], known);
    for j := 0 to |members|
      invariant redirects == RedirectEach(c, members[..j], known)
      invariant forall i | 0 <= i < j :: members[i] < |c.keys| && !Orphaned(c, members[i])
    {
      var member := members[j];
      assert member in members;
      OrphanOf(c, key, member, kept);
      RedirectOneMore(c, members, j, known);
      if member != kept && c.ids[member].Some? {
        if c.ids[kept].None? {
          return Failure(MissingWarcinfoRecordId);
        }
        if NormalizeId(c.ids[member].value) != NormalizeId(c.ids[kept].value) {
          redirects := redirects[NormalizeId(c.ids[member].value) := [SP] + c.ids[kept].value];
        }
      }
    }
    assert members[..|members|] == members;
    r := Success(redirects);
  }

  method PlaceGroup(
    c: Catalogue, infos: seq<Raw.Record>, members: seq<nat>, kept: nat, actions: seq<Action>, ghost key: GroupKey)
    returns (placed: seq<Action>)
    requires c.Valid() && |infos| == |c.keys| == |actions|
    requires members == Members(c.keys, key, |c.keys|) && members != []
    requires kept == Soonest(c, members)
    ensures |placed| == |actions|
    ensures forall i | 0 <= i < |actions| ::
              placed[i] == if c.keys[i] == key then ActionFor(c, infos, i) else actions[i]
  {
    hide Soonest, Leader, Kept, Group, Members;
    placed := actions;
    InGroup(c, key);
    for j := 0 to |members|
      invariant |placed| == |actions|
      invariant forall a | 0 <= a < j :: placed[members[a]] == Skip(members[0], c.ids[kept])
      invariant forall i: nat | i < |actions| && c.keys[i] != key :: placed[i] == actions[i]
    {
      placed := placed[members[j] := Skip(members[0], c.ids[kept])];
    }
    placed := placed[members[0] := Emit(infos[kept])];
    forall i: nat | i < |actions|
      ensures placed[i] == if c.keys[i] == key then ActionFor(c, infos, i) else actions[i]
    {
      if c.keys[i] == key {
        PlacedOf(c, key, i);
      }
    }
  }

  lemma InGroup(c: Catalogue, key: GroupKey)
    ensures var members := Members(c.keys, key, |c.keys|);
            && (forall a | 0 <= a < |members| :: members[a] < |c.keys| && c.keys[members[a]] == key)
            && (forall a, b | 0 <= a < b < |members| :: members[a] != members[b])
  {
    hide Members;
    var members := Members(c.keys, key, |c.keys|);
    assert forall a | 0 <= a < |members| :: members[a] in members;
  }

  lemma PlacedOf(c: Catalogue, key: GroupKey, i: nat)
    requires c.Valid() && i < |c.keys| && c.keys[i] == key
    ensures var members := Members(c.keys, key, |c.keys|);
            && i in members && Leader(c, i) == members[0]
            && Kept(c, i) == Soonest(c, members)
  {
    hide Soonest;
    KeptOf(c, key, i);
  }

  /**
   * Decide which warcinfo records of two inputs survive. The groups are visited in whatever order
   * the map holds them.
   */
  method Build(w: Matching, first: seq<Raw.Record>, second: seq<Raw.Record>)
    returns (r: Result<Plan, Error>, ghost order: seq<GroupKey>)
    ensures Builds(w, Warcinfos(first) + Warcinfos(second), |first|, r, order)
  {
    hide Warcinfos, Builds;
    var firstInfos := SelectWarcinfos(first);
    var secondInfos := SelectWarcinfos(second);
    r, order := BuildFrom(w, firstInfos + secondInfos, |first|);
  }

  /** A plan made in some order of the groups, or the error of a record that cannot be dropped. */
  ghost predicate Builds(
    w: Matching, infos: seq<Raw.Record>, firstRecords: nat, r: Result<Plan, Error>, order: seq<GroupKey>)
  {
    var c := CatalogueOf(w, infos);
    && IsOrder(order, c.keys)
    && (r.Success? ==> IsPlan(c, infos, r.value) && r.value == PlanIn(c, infos, firstRecords, order))
    && (r.Failure? <==> exists m: nat | m < |c.keys| :: Orphaned(c, m))
    && (r.Failure? ==> r.error == MissingWarcinfoRecordId)
  }

  method BuildFrom(w: Matching, infos: seq<Raw.Record>, firstRecords: nat)
    returns (r: Result<Plan, Error>, ghost order: seq<GroupKey>)
    ensures Builds(w, infos, firstRecords, r, order)
  {
    hide Soonest, RedirectsFor, DifferencesOf, Members, Orphaned, ActionFor, KeyOf, DateOf, RecordId, IsPlan, RedirectsIn;
    var c := CatalogueOf(w, infos);
    var groups := GroupRecords(c);
    var differences := FindDifferences(c.keys, groups);
    var visited := OrderOf(c.keys, groups);
    order := visited;
    var planned := PlanGroups(c, infos, groups, visited);
    if planned.Failure? {
      r := Failure(planned.error);
      return;
    }
    PlanInIsPlan(c, infos, firstRecords, order);
    r := Success(Plan(planned.value.0, firstRecords, planned.value.1, |groups|, differences));
    assert |groups| == |groups.Keys|;
    assert planned.value.0 == PlanIn(c, infos, firstRecords, order).actions;
  }

  /** The order a map hands out its groups in. */
  method OrderOf(keys: seq<GroupKey>, groups: map<GroupKey, seq<nat>>) returns (order: seq<GroupKey>)
    requires Grouped(keys, groups)
    ensures IsOrder(order, keys)
  {
    hide Lists, KeySet;
    order := [];
    var coming := groups.Keys;
    NoneListed();
    while coming != {}
      invariant coming <= groups.Keys && Lists(order, groups.Keys - coming)
      decreases coming
    {
      var key :| key in coming;
      ListsOneMore(order, groups.Keys - coming, key);
      order := order + [key];
      assert groups.Keys - (coming - {key}) == groups.Keys - coming + {key};
      coming := coming - {key};
    }
    assert groups.Keys - {} == groups.Keys;
  }

  lemma NoneListed()
    ensures forall keys: set<GroupKey> | keys == {} :: Lists([], keys)
  {
  }

  method PlanGroups(c: Catalogue, infos: seq<Raw.Record>, groups: map<GroupKey, seq<nat>>, order: seq<GroupKey>)
    returns (r: Result<(seq<Action>, map<bytes, bytes>), Error>)
    requires c.Valid() && |infos| == |c.keys| && Grouped(c.keys, groups) && IsOrder(order, c.keys)
    ensures r.Success? ==> |r.value.0| == |infos|
    ensures r.Success? ==> forall i | 0 <= i < |infos| :: r.value.0[i] == ActionFor(c, infos, i)
    ensures r.Success? ==> r.value.1 == RedirectsIn(c, order)
    ensures r.Failure? <==> exists m: nat | m < |c.keys| :: Orphaned(c, m)
    ensures r.Failure? ==> r.error == MissingWarcinfoRecordId
  {
    hide Soonest, RedirectEach, Members, Orphaned, ActionFor, KeySet;
    var actions := seq(|infos|, i requires 0 <= i < |infos| => Skip(i, c.ids[i]));
    var redirects: map<bytes, bytes> := map[];
    assert order[..0] == [];
    for n := 0 to |order|
      invariant |actions| == |infos|
      invariant forall i | 0 <= i < |infos| && c.keys[i] in order[..n] :: actions[i] == ActionFor(c, infos, i)
      invariant redirects == RedirectsIn(c, order[..n])
      invariant forall m: nat | m < |c.keys| && c.keys[m] in order[..n] :: !Orphaned(c, m)
    {
      var key := order[n];
      var members := groups[key];
      GroupHasMembers(c, groups, key);
      var kept := EarliestOf(c, members);
      var redirected := RedirectGroup(c, members, kept, redirects, key);
      if redirected.Failure? {
        return Failure(redirected.error);
      }
      redirects := redirected.value;
      actions := PlaceGroup(c, infos, members, kept, actions, key);
      assert order[..n + 1][..n] == order[..n] && order[..n + 1] == order[..n] + [key];
      assert forall m: nat | m < |c.keys| && c.keys[m] == key :: m in members;
    }
    assert order[..|order|] == order;
    EveryKey(c.keys, order);
    r := Success((actions, redirects));
  }

  lemma EveryKey(keys: seq<GroupKey>, order: seq<GroupKey>)
    requires IsOrder(order, keys)
    ensures forall i | 0 <= i < |keys| :: keys[i] in order
  {
    assert forall i | 0 <= i < |keys| :: keys[i] in KeySet(keys);
  }

  lemma GroupHasMembers(c: Catalogue, groups: map<GroupKey, seq<nat>>, key: GroupKey)
    requires Grouped(c.keys, groups) && key in groups.Keys
    ensures groups[key] == Members(c.keys, key, |c.keys|) != []
    ensures forall m: nat | m in groups[key] :: m < |c.keys|
  {
    var i: nat :| i < |c.keys| && c.keys[i] == key;
    assert i in groups[key];
  }

  lemma NothingDone(c: Catalogue, coming: set<GroupKey>)
    requires c.Valid() && coming == KeySet(c.keys)
    ensures RedirectsFor(c, coming, [], map[])
  {
    assert forall m | 0 <= m < |c.keys| :: c.keys[m] in coming;
  }
}
