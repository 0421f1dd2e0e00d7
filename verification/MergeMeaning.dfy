/** What a merge keeps: which warcinfo record each record belongs to. */
module MergeMeaning {
  import opened Bytes
  import opened Headers
  import opened MergePlan
  import opened MergePass
  import Raw

  // ---------------------------------------------------------------------------------------------
  // Associations
  // ---------------------------------------------------------------------------------------------

  /** What a record is associated with: nothing, a warcinfo record at hand, or one that is not. */
  datatype Association = Unassociated | With(n: nat) | Elsewhere(id: bytes)

  ghost predicate Names(infos: seq<Raw.Record>, n: nat, id: bytes) {
    n < |infos| && RecordId(infos[n]).Some? && NormalizeId(RecordId(infos[n]).value) == id
  }

  ghost predicate IsNamed(infos: seq<Raw.Record>, id: bytes) {
    exists n: nat :: Names(infos, n, id)
  }

  /** The warcinfo record a header names, or else the one in force where the record stands. */
  ghost function AssociationOf(infos: seq<Raw.Record>, fields: Fields, latest: Option<nat>): Association {
    match Get(fields, WARC_WARCINFO_ID)
    case Some(value) => Named(infos, NormalizeId(value))
    case None => if latest.Some? then With(latest.value) else Unassociated
  }

  ghost function Named(infos: seq<Raw.Record>, id: bytes): (a: Association)
    ensures a == Elsewhere(id) || (a.With? && Names(infos, a.n, id))
    ensures a.Elsewhere? <==> !IsNamed(infos, id)
  {
    if IsNamed(infos, id) then
      var n: nat :| Names(infos, n, id);
      With(n)
    else Elsewhere(id)
  }

  /** The latest warcinfo record before the record `k` of a file that begins at the record `start`. */
  function Latest(records: seq<Raw.Record>, start: nat, k: nat): Option<nat>
    requires k <= |records|
  {
    if k <= start then None
    else if IsWarcinfo(records[k - 1].header) then Some(|Warcinfos(records[..k - 1])|)
    else Latest(records, start, k - 1)
  }

  lemma {:induction false} WarcinfosConcat(a: seq<Raw.Record>, b: seq<Raw.Record>)
    ensures Warcinfos(a + b) == Warcinfos(a) + Warcinfos(b)
    decreases |b|
  {
    hide IsWarcinfo;
    if b == [] {
      assert a + b == a;
    } else {
      assert (a + b)[..|a + b| - 1] == a + b[..|b| - 1];
      WarcinfosConcat(a, b[..|b| - 1]);
    }
  }

  /** A warcinfo record among others is the next of those it is among. */
  lemma WarcinfoAt(records: seq<Raw.Record>, k: nat)
    requires k < |records|
    ensures var n := |Warcinfos(records[..k])|;
            if IsWarcinfo(records[k].header)
            then n < |Warcinfos(records)| && Warcinfos(records)[n] == records[k] && |Warcinfos(records[..k + 1])| == n + 1
            else n <= |Warcinfos(records)| && Warcinfos(records[..k + 1]) == Warcinfos(records[..k])
  {
    hide IsWarcinfo;
    assert records[..k + 1][..k] == records[..k];
    assert records == records[..k + 1] + records[k + 1..];
    WarcinfosConcat(records[..k + 1], records[k + 1..]);
  }

  // ---------------------------------------------------------------------------------------------
  // Merges
  // ---------------------------------------------------------------------------------------------

  datatype Merge = Merge(w: Matching, first: seq<Raw.Record>, second: seq<Raw.Record>, plan: Plan, filename: Option<bytes>) {
    ghost function Records(): seq<Raw.Record> {
      first + second
    }

    ghost function Infos(): seq<Raw.Record> {
      Warcinfos(Records())
    }

    ghost function Catalogue(): (c: MergePlan.Catalogue)
      ensures c.Valid() && |c.keys| == |Infos()|
    {
      CatalogueOf(w, Infos())
    }

    /** The plan is the one made for the records the inputs still hold. */
    ghost predicate Valid() {
      && IsPlan(Catalogue(), Infos(), plan) && plan.firstRecords == |first|
      && forall i: nat | i < |Infos()| :: !Orphaned(Catalogue(), i)
    }

    /** Identifiers are unique, but for copies of one warcinfo record. */
    ghost predicate UniqueIds() {
      forall a: nat, b: nat, id | Names(Infos(), a, id) && Names(Infos(), b, id) ::
        Catalogue().keys[a] == Catalogue().keys[b]
    }

    /** Whatever shares the identifier of a dropped record is kept under the same one. */
    ghost predicate Consistent() {
      forall a: nat, b: nat, id | a < |Infos()| && Drops(Catalogue(), a, id) && Names(Infos(), b, id) ::
        Catalogue().ids[Kept(Catalogue(), a)] == Catalogue().ids[Kept(Catalogue(), b)]
    }

    ghost function StartFor(k: nat): nat {
      if k < |first| then 0 else |first|
    }

    /** What the merge writes for the first `k` records. */
    ghost function After(k: nat): Result<(State, seq<Raw.Record>), Error>
      requires k <= |Records()|
    {
      Merged(plan, filename, Records(), k)
    }

    ghost function Emitted(l: nat): Raw.Record
      requires l < |Infos()|
    {
      Published(plan, filename, Infos()[Kept(Catalogue(), l)])
    }

    /** The warcinfo records emitted for the first `n`, in order. */
    ghost function Emissions(n: nat): seq<Raw.Record>
      requires n <= |Infos()|
    {
      if n == 0 then []
      else Emissions(n - 1) + if Leader(Catalogue(), n - 1) == n - 1 then [Emitted(n - 1)] else []
    }

    ghost function LastLeader(n: nat): Option<nat>
      requires n <= |Infos()|
    {
      if n == 0 then None
      else if Leader(Catalogue(), n - 1) == n - 1 then Some(n - 1)
      else LastLeader(n - 1)
    }

    ghost function ScopeOf(latest: Option<nat>): Option<Scope>
      requires latest.Some? ==> latest.value < |Infos()|
    {
      if latest.None? then None
      else Some(Scope(Leader(Catalogue(), latest.value), Catalogue().ids[Kept(Catalogue(), latest.value)]))
    }

    /** Where the second pass stands before the record `k`. */
    ghost predicate Tracks(k: nat, s: State, outs: seq<Raw.Record>)
      requires k <= |Records()|
    {
      var latest := Latest(Records(), StartFor(k), k);
      && s.next == |Warcinfos(Records()[..k])| <= |Infos()|
      && (latest.Some? ==> latest.value < s.next)
      && Entering(plan, k, s).input == ScopeOf(latest)
      && s.output == LastLeader(s.next)
      && |outs| + s.merged == k
      && Warcinfos(outs) == Emissions(s.next)
    }
  }

  /** The names that matter are told apart. */
  lemma NamesApart()
    ensures STANDARD_NAMES[WARCINFO_ID_RANK] == WARC_WARCINFO_ID && EqIgnoreCase(WARC_WARCINFO_ID, WARC_WARCINFO_ID)
    ensures IsReference(WARC_WARCINFO_ID)
    ensures !IsReference(WARC_TYPE) && !EqIgnoreCase(WARC_TYPE, WARC_FILENAME) && !EqIgnoreCase(WARC_WARCINFO_ID, WARC_TYPE)
    ensures !IsReference(WARC_RECORD_ID) && !EqIgnoreCase(WARC_RECORD_ID, WARC_FILENAME)
    ensures !EqIgnoreCase(WARC_WARCINFO_ID, WARC_RECORD_ID)
  {
    assert WARC_RECORD_ID[7] == 99 && WARC_REFERS_TO[7] == 102;
  }

  /** Publishing a warcinfo record leaves its type and its identifier. */
  lemma PublishedIsSame(plan: Plan, filename: Option<bytes>, record: Raw.Record)
    ensures IsWarcinfo(Published(plan, filename, record).header) == IsWarcinfo(record.header)
    ensures RecordId(Published(plan, filename, record)) == RecordId(record)
  {
    hide Get, Renamed, RedirectedAll, EqIgnoreCase, IsReference, TrimAscii, NormalizeId;
    NamesApart();
    var renamed := Renamed(record.header.fields, filename);
    GetRenamed(record.header.fields, filename, WARC_TYPE);
    GetRenamed(record.header.fields, filename, WARC_RECORD_ID);
    GetRedirected(renamed, plan.redirects, WARC_TYPE);
    GetRedirected(renamed, plan.redirects, WARC_RECORD_ID);
  }

  /** Associating another record leaves its type, its version and its body. */
  lemma AssociatedIsSame(plan: Plan, s: State, record: Raw.Record)
    requires Associated(plan, s, record).Success?
    ensures var written := Associated(plan, s, record).value;
            && IsWarcinfo(written.header) == IsWarcinfo(record.header)
            && written.body == record.body && written.header.version == record.header.version
  {
    hide Get, Inserted, RedirectedAll, EqIgnoreCase, IsReference, TrimAscii, NormalizeId;
    NamesApart();
    var fields := record.header.fields;
    GetRedirected(fields, plan.redirects, WARC_TYPE);
    if s.input.Some? && s.input.value.id.Some? {
      var value := [SP] + s.input.value.id.value;
      GetInserted(fields, WARCINFO_ID_RANK, value, WARC_TYPE);
      GetRedirected(Inserted(fields, WARCINFO_ID_RANK, value), plan.redirects, WARC_TYPE);
    }
  }

  // ---------------------------------------------------------------------------------------------
  // The scopes in force
  // ---------------------------------------------------------------------------------------------

  lemma {:induction false} AllAreWarcinfos(records: seq<Raw.Record>)
    ensures forall i | 0 <= i < |Warcinfos(records)| :: IsWarcinfo(Warcinfos(records)[i].header)
  {
    hide IsWarcinfo;
    if records != [] {
      AllAreWarcinfos(records[..|records| - 1]);
    }
  }

  lemma OneMoreWritten(outs: seq<Raw.Record>, record: Raw.Record)
    ensures Warcinfos(outs + [record]) == Warcinfos(outs) + if IsWarcinfo(record.header) then [record] else []
  {
    hide IsWarcinfo;
    assert (outs + [record])[..|outs|] == outs;
  }

  /** The scope in force before the record after `k`. */
  lemma LatestStep(m: Merge, k: nat)
    requires k < |m.Records()|
    ensures Latest(m.Records(), m.StartFor(k + 1), k + 1) ==
            if k + 1 == |m.first| then None
            else if IsWarcinfo(m.Records()[k].header) then Some(|Warcinfos(m.Records()[..k])|)
            else Latest(m.Records(), m.StartFor(k), k)
  {
    hide IsWarcinfo, Warcinfos;
  }

  /** The action planned for a warcinfo record, and what it makes of the one kept. */
  lemma PlannedFor(m: Merge, n: nat)
    requires m.Valid() && n < |m.Infos()|
    ensures |m.plan.actions| == |m.Infos()| && m.plan.firstRecords == |m.first|
    ensures var c, infos := m.Catalogue(), m.Infos();
            && m.plan.actions[n] == (if Leader(c, n) == n then Emit(infos[Kept(c, n)]) else Skip(Leader(c, n), c.ids[Kept(c, n)]))
            && c.ids[Kept(c, n)] == RecordId(infos[Kept(c, n)])
            && IsWarcinfo(m.Emitted(n).header)
  {
    hide IsWarcinfo, Warcinfos, Published, Leader, Kept, RecordId, KeyOf, DateOf, RedirectsFor, DifferencesOf, Orphaned;
    assert m.plan.actions[n] == ActionFor(m.Catalogue(), m.Infos(), n);
    AllAreWarcinfos(m.Records());
    PublishedIsSame(m.plan, m.filename, m.Infos()[Kept(m.Catalogue(), n)]);
  }

  lemma TracksWarcinfo(m: Merge, k: nat, s: State, outs: seq<Raw.Record>, step: (State, Option<Raw.Record>))
    requires m.Valid() && k < |m.Records()| && m.Tracks(k, s, outs)
    requires IsWarcinfo(m.Records()[k].header)
    requires Step(m.plan, m.filename, k, s, m.Records()[k]) == Success(step)
    ensures m.Tracks(k + 1, step.0, if step.1.Some? then outs + [step.1.value] else outs)
  {
    hide IsWarcinfo, Warcinfos, Published, Leader, Kept, RecordId, Merge.Catalogue, Latest, Merge.Valid;
    WarcinfoAt(m.Records(), k);
    LatestStep(m, k);
    PlannedFor(m, s.next);
    OneMoreWritten(outs, m.Emitted(s.next));
  }

  lemma PlanSplits(m: Merge)
    requires m.Valid()
    ensures m.plan.firstRecords == |m.first|
  {
  }

  lemma TracksOther(m: Merge, k: nat, s: State, outs: seq<Raw.Record>, step: (State, Option<Raw.Record>))
    requires m.plan.firstRecords == |m.first| && k < |m.Records()| && m.Tracks(k, s, outs)
    requires !IsWarcinfo(m.Records()[k].header)
    requires Step(m.plan, m.filename, k, s, m.Records()[k]) == Success(step)
    ensures step.1.Some? && m.Tracks(k + 1, step.0, outs + [step.1.value])
  {
    hide IsWarcinfo, Warcinfos, Leader, Kept, RecordId, KeyOf, DateOf, RedirectsFor, Latest, Associated, Merge.Emissions, Merge.LastLeader;
    var record := m.Records()[k];
    WarcinfoAt(m.Records(), k);
    LatestStep(m, k);
    AssociatedIsSame(m.plan, Entering(m.plan, k, s), record);
    OneMoreWritten(outs, step.1.value);
    assert Warcinfos(outs) + [] == Warcinfos(outs);
  }

  lemma {:induction false} PassTracks(m: Merge, k: nat)
    requires m.Valid() && k <= |m.Records()| && m.After(k).Success?
    ensures m.Tracks(k, m.After(k).value.0, m.After(k).value.1)
    decreases k
  {
    hide Step, Merge.Valid, Merge.Tracks, Merge.Records;
    if k == 0 {
      NothingTracked(m);
    } else {
      MergedExtends(m.plan, m.filename, m.Records(), k - 1, k);
      PassTracks(m, k - 1);
      MergedStep(m.plan, m.filename, m.Records(), k - 1);
      var before := m.After(k - 1).value;
      var step := Step(m.plan, m.filename, k - 1, before.0, m.Records()[k - 1]).value;
      if IsWarcinfo(m.Records()[k - 1].header) {
        TracksWarcinfo(m, k - 1, before.0, before.1, step);
      } else {
        PlanSplits(m);
        TracksOther(m, k - 1, before.0, before.1, step);
      }
    }
  }

  lemma NothingTracked(m: Merge)
    ensures m.Tracks(0, START, [])
    ensures m.After(0) == Success((START, []))
  {
    assert m.Records()[..0] == [];
  }

  // ---------------------------------------------------------------------------------------------
  // What is emitted
  // ---------------------------------------------------------------------------------------------

  /** The last of the warcinfo records emitted so far is the last leader's. */
  lemma {:induction false} EmissionsEnd(m: Merge, n: nat)
    requires n <= |m.Infos()|
    ensures m.LastLeader(n).None? <==> m.Emissions(n) == []
    ensures var last, some := m.LastLeader(n), m.Emissions(n);
            last.Some? ==> last.value < n && some[|some| - 1] == m.Emitted(last.value)
  {
    hide Merge.Infos, Merge.Emitted, Merge.Catalogue, Leader, Kept;
    if n > 0 {
      EmissionsEnd(m, n - 1);
    }
  }

  /** What is emitted for the first records stays emitted. */
  lemma {:induction false} EmissionsGrow(m: Merge, n: nat, all: nat)
    requires n <= all <= |m.Infos()|
    ensures m.Emissions(n) <= m.Emissions(all)
    decreases all
  {
    hide Merge.Infos, Merge.Emitted, Merge.Catalogue, Leader, Kept;
    if n < all {
      EmissionsGrow(m, n, all - 1);
    }
  }

  /** A group's first record stands for it in what is emitted. */
  lemma {:induction false} EmissionOf(m: Merge, l: nat, n: nat) returns (j: nat)
    requires l < n <= |m.Infos()| && Leader(m.Catalogue(), l) == l
    ensures j < |m.Emissions(n)| && m.Emissions(n)[j] == m.Emitted(l)
  {
    hide Merge.Infos, Merge.Emitted, Merge.Catalogue, Leader, Kept;
    if l == n - 1 {
      j := |m.Emissions(n - 1)|;
    } else {
      j := EmissionOf(m, l, n - 1);
    }
  }

  /** Only the kept records of groups are emitted. */
  lemma {:induction false} EmissionIs(m: Merge, j: nat, n: nat) returns (l: nat)
    requires n <= |m.Infos()| && j < |m.Emissions(n)|
    ensures l < n && m.Emissions(n)[j] == m.Emitted(l)
  {
    hide Merge.Infos, Merge.Emitted, Merge.Catalogue, Leader, Kept;
    if j < |m.Emissions(n - 1)| {
      l := EmissionIs(m, j, n - 1);
    } else {
      l := n - 1;
    }
  }

  lemma EmittedId(m: Merge, l: nat)
    requires l < |m.Infos()|
    ensures RecordId(m.Emitted(l)) == m.Catalogue().ids[Kept(m.Catalogue(), l)]
    ensures Kept(m.Catalogue(), l) < |m.Infos()|
  {
    hide Published, Kept, RecordId, Warcinfos, KeyOf, DateOf;
    PublishedIsSame(m.plan, m.filename, m.Infos()[Kept(m.Catalogue(), l)]);
  }

  /** Records of one group have one record kept for them. */
  lemma SameKept(c: Catalogue, a: nat, b: nat)
    requires c.Valid() && a < |c.keys| && b < |c.keys| && c.keys[a] == c.keys[b]
    ensures Kept(c, a) == Kept(c, b) && Leader(c, a) == Leader(c, b)
    ensures Kept(c, Kept(c, a)) == Kept(c, a) && Leader(c, Leader(c, a)) == Leader(c, a)
    ensures Kept(c, Leader(c, a)) == Kept(c, a)
  {
    hide Soonest;
  }

  /** A name that resolves to a kept record resolves, among what is emitted, to that record. */
  lemma KeptIsFound(m: Merge, n: nat, id: bytes)
    requires m.UniqueIds() && n < |m.Infos()|
    requires Names(m.Infos(), Kept(m.Catalogue(), n), id)
    ensures var outInfos := m.Emissions(|m.Infos()|);
            var found := Named(outInfos, id);
            found.With? && found.n < |outInfos| && outInfos[found.n] == m.Emitted(n)
  {
    hide Merge.Infos, Merge.Emissions, Kept, Leader, Published, Merge.Valid, RecordId, NormalizeId, IsPlan;
    var c, all := m.Catalogue(), |m.Infos()|;
    SameKept(c, n, n);
    EmittedId(m, n);
    var j := EmissionOf(m, Leader(c, n), all);
    KeptName(m, n, id);
    assert m.Emitted(Leader(c, n)) == m.Emitted(n);
    assert Names(m.Emissions(all), j, id);
    var found := Named(m.Emissions(all), id);
    var l := EmissionIs(m, found.n, all);
    EmittedId(m, l);
    KeptName(m, l, id);
    SameKept(c, l, l);
    SameKept(c, Kept(c, l), Kept(c, n));
  }

  lemma KeptName(m: Merge, n: nat, id: bytes)
    requires n < |m.Infos()|
    ensures Names(m.Infos(), Kept(m.Catalogue(), n), id) <==>
            m.Catalogue().ids[Kept(m.Catalogue(), n)].Some? && NormalizeId(m.Catalogue().ids[Kept(m.Catalogue(), n)].value) == id
  {
    hide Kept, RecordId, NormalizeId, Warcinfos, KeyOf, DateOf;
  }

  /** A name that something emitted has is a name some record of the inputs had. */
  lemma EmittedNameIsOld(m: Merge, id: bytes)
    ensures IsNamed(m.Emissions(|m.Infos()|), id) ==> IsNamed(m.Infos(), id)
  {
    hide Merge.Infos, Merge.Emissions, Kept, Leader, Merge.Emitted, RecordId, NormalizeId, Merge.Catalogue;
    var outInfos := m.Emissions(|m.Infos()|);
    if IsNamed(outInfos, id) {
      var j: nat :| Names(outInfos, j, id);
      var l := EmissionIs(m, j, |m.Infos()|);
      EmittedId(m, l);
      KeptName(m, l, id);
      assert Names(m.Infos(), Kept(m.Catalogue(), l), id);
    }
  }

  // ---------------------------------------------------------------------------------------------
  // What is redirected
  // ---------------------------------------------------------------------------------------------

  /** A redirect goes from a record that was dropped to the one kept for it. */
  lemma RedirectOf(m: Merge, id: bytes) returns (d: nat)
    requires m.Valid() && id in m.plan.redirects
    ensures d < |m.Infos()| && Names(m.Infos(), d, id)
    ensures Drops(m.Catalogue(), d, id)
    ensures m.plan.redirects[id] == [SP] + m.Catalogue().ids[Kept(m.Catalogue(), d)].value
  {
    hide Kept, RecordId, NormalizeId, Warcinfos, KeyOf, DateOf, ActionFor, DifferencesOf, Orphaned;
    var c := m.Catalogue();
    d :| d < |c.keys| && Done(c, {}, [], d) && Targets(c, d, id, m.plan.redirects[id]);
  }

  /** A reference to the record `n` by the name `id` is, once redirected, one to the copy kept of it. */
  ghost predicate Resolves(m: Merge, n: nat, id: bytes)
    requires n < |m.Infos()|
  {
    var c := m.Catalogue();
    var kept := c.ids[Kept(c, n)];
    && kept.Some?
    && (id in m.plan.redirects ==> m.plan.redirects[id] == [SP] + kept.value)
    && (id !in m.plan.redirects ==> id == NormalizeId(kept.value))
  }

  /** References to every copy of a warcinfo record resolve exactly when the identifiers are consistent. */
  lemma RedirectsResolve(m: Merge)
    requires m.Valid()
    ensures (forall n: nat, id | n < |m.Infos()| && Names(m.Infos(), n, id) :: Resolves(m, n, id)) <==> m.Consistent()
  {
    hide Kept, NormalizeId, Merge.Valid, Merge.Infos, Merge.Catalogue, Drops, Names, Resolves;
    if m.Consistent() {
      forall n: nat, id | n < |m.Infos()| && Names(m.Infos(), n, id)
        ensures Resolves(m, n, id)
      {
        ResolvesIfConsistent(m, n, id);
      }
    } else {
      NamedWithin(m.Infos());
      var a: nat, b: nat, id :| a < |m.Infos()| && Drops(m.Catalogue(), a, id) && Names(m.Infos(), b, id)
                                && m.Catalogue().ids[Kept(m.Catalogue(), a)] != m.Catalogue().ids[Kept(m.Catalogue(), b)];
      DroppedIsNamed(m, a, id);
      InRange(m.Infos(), b, id);
      assert !Resolves(m, a, id) || !Resolves(m, b, id) by {
        DroppedIsRedirected(m, a, b, id);
      }
    }
  }

  lemma NamedWithin(infos: seq<Raw.Record>)
    ensures forall n: nat, id | Names(infos, n, id) :: n < |infos|
  {
  }

  lemma DroppedIsNamed(m: Merge, a: nat, id: bytes)
    requires a < |m.Infos()| && Drops(m.Catalogue(), a, id)
    ensures Names(m.Infos(), a, id)
  {
    hide Kept, RecordId, NormalizeId, Warcinfos, KeyOf, DateOf;
  }

  lemma DroppedIsRedirected(m: Merge, a: nat, b: nat, id: bytes)
    requires m.Valid() && a < |m.Infos()| && b < |m.Infos()| && Drops(m.Catalogue(), a, id)
    ensures Resolves(m, a, id) && Resolves(m, b, id) ==>
              m.Catalogue().ids[Kept(m.Catalogue(), a)] == m.Catalogue().ids[Kept(m.Catalogue(), b)]
  {
    hide Kept, NormalizeId, Merge.Infos, Merge.Catalogue, Drops, Orphaned, ActionFor, DifferencesOf;
    var c := m.Catalogue();
    assert Done(c, {}, [], a);
    assert id in m.plan.redirects;
    assert forall v: bytes :: ([SP] + v)[1..] == v;
  }

  /** Where identifiers are unique but for copies of one record, they are consistent. */
  lemma UniqueIsConsistent(m: Merge)
    requires m.UniqueIds()
    ensures m.Consistent()
  {
    hide Kept, NormalizeId, RecordId, Drops, Merge.Infos, Merge.Catalogue;
    var c := m.Catalogue();
    forall a: nat, b: nat, id | a < |m.Infos()| && Drops(c, a, id) && Names(m.Infos(), b, id)
      ensures c.ids[Kept(c, a)] == c.ids[Kept(c, b)]
    {
      DroppedIsNamed(m, a, id);
      SameKept(c, a, b);
    }
  }

  lemma ResolvesIfConsistent(m: Merge, n: nat, id: bytes)
    requires m.Valid() && m.Consistent() && Names(m.Infos(), n, id)
    ensures n < |m.Infos()| && Resolves(m, n, id)
  {
    hide Kept, RecordId, NormalizeId, Warcinfos, KeyOf, DateOf, ActionFor, DifferencesOf;
    var c := m.Catalogue();
    assert !Orphaned(c, n);
    assert c.ids[n] == RecordId(m.Infos()[n]);
    if id in m.plan.redirects {
      var d := RedirectOf(m, id);
    } else {
      assert Done(c, {}, [], n);
      assert !Drops(c, n, id);
    }
  }

  /** The identifier of a kept record is never redirected. */
  lemma KeptIsNotRedirected(m: Merge, n: nat, id: bytes)
    requires m.Valid() && m.Consistent() && n < |m.Infos()|
    requires Names(m.Infos(), Kept(m.Catalogue(), n), id)
    ensures id !in m.plan.redirects
  {
    hide Kept, RecordId, NormalizeId, Merge.Infos, Merge.Valid;
    var c := m.Catalogue();
    KeptName(m, n, id);
    if id in m.plan.redirects {
      var d := RedirectOf(m, id);
      SameKept(c, n, n);
    }
  }

  // ---------------------------------------------------------------------------------------------
  // Associations are preserved
  // ---------------------------------------------------------------------------------------------

  lemma {:induction false} LatestOfOne(records: seq<Raw.Record>, k: nat)
    requires k <= |records|
    ensures var n := |Warcinfos(records[..k])|; Latest(records, 0, k) == if n == 0 then None else Some(n - 1)
    decreases k
  {
    hide IsWarcinfo;
    if k == 0 {
      assert records[..0] == [];
    } else {
      WarcinfoAt(records, k - 1);
      LatestOfOne(records, k - 1);
    }
  }

  /** What is associated with `a` in the inputs is associated with `b` in the output. */
  ghost predicate Preserved(m: Merge, a: Association, outInfos: seq<Raw.Record>, b: Association) {
    match a
    case Unassociated => b == Unassociated
    case Elsewhere(id) => b == Elsewhere(id)
    case With(n) => n < |m.Infos()| && b.With? && b.n < |outInfos| && outInfos[b.n] == m.Emitted(n)
  }

  /** A record that names its warcinfo record names, once redirected, the one kept for it. */
  lemma NamedIsPreserved(m: Merge, value: bytes)
    requires m.Valid() && m.UniqueIds()
    ensures var id, redirects := NormalizeId(value), m.plan.redirects;
            var after := if id in redirects then redirects[id] else value;
            var outInfos := m.Emissions(|m.Infos()|);
            Preserved(m, Named(m.Infos(), id), outInfos, Named(outInfos, NormalizeId(after)))
  {
    hide Merge.Valid, Merge.UniqueIds, Merge.Infos, Merge.Emissions, Merge.Emitted, Kept, NormalizeId, Names, Merge.Catalogue;
    var id, c := NormalizeId(value), m.Catalogue();
    var found := Named(m.Infos(), id);
    if found.With? {
      InRange(m.Infos(), found.n, id);
      UniqueIsConsistent(m);
      ResolvesIfConsistent(m, found.n, id);
      var kept := c.ids[Kept(c, found.n)].value;
      SpacedIdIsSame(kept);
      KeptName(m, found.n, NormalizeId(kept));
      KeptIsFound(m, found.n, NormalizeId(kept));
    } else {
      EmittedNameIsOld(m, id);
      if id in m.plan.redirects {
        var d := RedirectOf(m, id);
        assert false;
      }
    }
  }

  lemma InRange(infos: seq<Raw.Record>, n: nat, id: bytes)
    requires Names(infos, n, id)
    ensures n < |infos|
  {
  }

  /** A record that is given a name is given that of the record kept for the one in force. */
  lemma InsertedIsPreserved(m: Merge, n: nat)
    requires m.Valid() && m.UniqueIds() && n < |m.Infos()|
    requires m.Catalogue().ids[Kept(m.Catalogue(), n)].Some?
    ensures var id := NormalizeId([SP] + m.Catalogue().ids[Kept(m.Catalogue(), n)].value);
            var outInfos := m.Emissions(|m.Infos()|);
            id !in m.plan.redirects && Preserved(m, With(n), outInfos, Named(outInfos, id))
  {
    hide Merge.Valid, Merge.UniqueIds, Merge.Infos, Merge.Emissions, Merge.Emitted, Kept, NormalizeId, Names, Merge.Catalogue;
    var kept := m.Catalogue().ids[Kept(m.Catalogue(), n)].value;
    SpacedIdIsSame(kept);
    KeptName(m, n, NormalizeId(kept));
    KeptIsFound(m, n, NormalizeId(kept));
    UniqueIsConsistent(m);
    KeptIsNotRedirected(m, n, NormalizeId(kept));
  }

  /** The warcinfo record in force in the output is the one kept for the one in force in the input. */
  lemma ScopeIsPreserved(m: Merge, n: Option<nat>, at: nat)
    requires m.Valid() && (n.Some? ==> n.value < |m.Infos()|) && at <= |m.Infos()|
    requires LeaderOf(m.ScopeOf(n)) == m.LastLeader(at)
    ensures var some, outInfos := m.Emissions(at), m.Emissions(|m.Infos()|);
            Preserved(m, if n.Some? then With(n.value) else Unassociated, outInfos,
                      if some == [] then Unassociated else With(|some| - 1))
  {
    hide Merge.Valid, Merge.UniqueIds, Merge.Infos, Merge.Emissions, Kept, Leader, Published, Merge.Catalogue, Merge.LastLeader;
    EmissionsEnd(m, at);
    EmissionsGrow(m, at, |m.Infos()|);
    if n.Some? {
      SameKept(m.Catalogue(), n.value, n.value);
    }
  }

  /** The association of what is written for a record, by what the pass did with it. */
  lemma WrittenAssociation(m: Merge, n: Option<nat>, s: State, record: Raw.Record, outInfos: seq<Raw.Record>, latest: Option<nat>)
    requires m.Valid() && m.UniqueIds() && (n.Some? ==> n.value < |m.Infos()|)
    requires s.input == m.ScopeOf(n) && Associated(m.plan, s, record).Success?
    requires outInfos == m.Emissions(|m.Infos()|)
    requires LeaderOf(s.input) == s.output ==>
               Preserved(m, if n.Some? then With(n.value) else Unassociated, outInfos,
                         if latest.Some? then With(latest.value) else Unassociated)
    ensures Preserved(m, AssociationOf(m.Infos(), record.header.fields, n), outInfos,
                      AssociationOf(outInfos, Associated(m.plan, s, record).value.header.fields, latest))
  {
    hide Merge.Valid, Merge.UniqueIds, Merge.Infos, Merge.Emissions, Merge.Emitted, Kept, Leader, NormalizeId, Named,
      Merge.Catalogue, Preserved, Get, Inserted, RedirectedAll, EqIgnoreCase, IsReference;
    NamesApart();
    var fields := record.header.fields;
    GetRedirected(fields, m.plan.redirects, WARC_WARCINFO_ID);
    match Get(fields, WARC_WARCINFO_ID) {
      case Some(value) =>
        NamedIsPreserved(m, value);
      case None =>
        if LeaderOf(s.input) != s.output {
          var value := [SP] + s.input.value.id.value;
          GetInserted(fields, WARCINFO_ID_RANK, value, WARC_WARCINFO_ID);
          GetRedirected(Inserted(fields, WARCINFO_ID_RANK, value), m.plan.redirects, WARC_WARCINFO_ID);
          InsertedIsPreserved(m, n.value);
        }
    }
  }

  /**
   * A merge that succeeds preserves what every record is associated with. In the output, a record
   * that is no warcinfo record belongs to the warcinfo record that is kept for the one it belonged to
   * in its input, whether by name or by where it stands; one that belonged to none belongs to none.
   */
  lemma MergePreservesAssociation(m: Merge, end: State, outs: seq<Raw.Record>, k: nat) returns (p: nat)
    requires m.UniqueIds() && m.Valid() && m.After(|m.Records()|) == Success((end, outs))
    requires k < |m.Records()| && !IsWarcinfo(m.Records()[k].header)
    ensures var record := m.Records()[k];
            && p < |outs| && outs[p].body == record.body && outs[p].header.version == record.header.version
            && !IsWarcinfo(outs[p].header)
            && Preserved(m,
                 AssociationOf(m.Infos(), record.header.fields, Latest(m.Records(), m.StartFor(k), k)),
                 Warcinfos(outs),
                 AssociationOf(Warcinfos(outs), outs[p].header.fields, Latest(outs, 0, p)))
  {
    hide Merge.Valid, Merge.UniqueIds, Merge.Infos, Merge.Emissions, Merge.Emitted, IsWarcinfo, Warcinfos, Associated,
      Preserved, AssociationOf, Latest, Merge.LastLeader, Merge.ScopeOf, Merged, Entering;
    var records, all := m.Records(), |m.Records()|;
    p := WrittenFor(m, k);
    PassTracks(m, k);
    PassTracks(m, all);
    var before := m.After(k).value;
    var s := Entering(m.plan, k, before.0);
    AssociatedIsSame(m.plan, s, records[k]);
    assert records[..all] == records;
    assert Warcinfos(outs) == m.Emissions(|m.Infos()|) by {
      hide Merge.Records;
      AllRead(m, end, outs);
    }
    LatestOfOne(outs, p);
    var latest := Latest(records, m.StartFor(k), k);
    EnteringKeepsOutput(m.plan, k, before.0);
    if LeaderOf(s.input) == s.output {
      ScopeIsPreserved(m, latest, s.next);
    }
    WrittenAssociation(m, latest, s, records[k], Warcinfos(outs), Latest(outs, 0, p));
  }

  lemma EnteringKeepsOutput(plan: Plan, k: nat, s: State)
    ensures Entering(plan, k, s).output == s.output && Entering(plan, k, s).next == s.next
  {
  }

  /** What is written for a record that is no warcinfo record follows what was written before it. */
  lemma WrittenFor(m: Merge, k: nat) returns (p: nat)
    requires m.After(|m.Records()|).Success? && k < |m.Records()| && !IsWarcinfo(m.Records()[k].header)
    ensures m.After(k).Success?
    ensures var outs, before := m.After(|m.Records()|).value.1, m.After(k).value;
            var written := Associated(m.plan, Entering(m.plan, k, before.0), m.Records()[k]);
            && p == |before.1| < |outs| && outs[..p] == before.1
            && written.Success? && outs[p] == written.value
  {
    hide IsWarcinfo, Associated, Entering;
    var records, all := m.Records(), |m.Records()|;
    MergedExtends(m.plan, m.filename, records, k, all);
    MergedExtends(m.plan, m.filename, records, k + 1, all);
    MergedStep(m.plan, m.filename, records, k);
    p := |m.After(k).value.1|;
  }

  lemma AllRead(m: Merge, s: State, outs: seq<Raw.Record>)
    requires m.Tracks(|m.Records()|, s, outs)
    ensures Warcinfos(outs) == m.Emissions(|m.Infos()|)
  {
    hide Warcinfos, Merge.Emissions, Latest, Merge.ScopeOf, Merge.LastLeader;
    assert m.Records()[..|m.Records()|] == m.Records();
  }
}
