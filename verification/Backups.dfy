/** `create_backup`: at most 90 configuration backups a device, the oldest making room. */
module Backups {
  import opened Wrappers
  import opened Text

  const KEEP: nat := 90

  datatype Backup = Backup(deviceId: string, host: Option<string>, content: string, createdAt: int)

  datatype Request = Request(deviceId: string, host: Option<string>, content: string)

  /** The trimmed host when there is one. */
  function HostKey(r: Request): Option<string> {
    if r.host.Some? && Strip(r.host.value) != "" then Some(Strip(r.host.value)) else None
  }

  /** `_device_key`. */
  function DeviceKey(r: Request): string {
    if HostKey(r).Some? then HostKey(r).value else r.deviceId
  }

  /** The device a stored row belongs to: `list_backup_devices` groups the rows by this key. */
  function KeyOf(b: Backup): string {
    DeviceKey(Request(b.deviceId, b.host, b.content))
  }

  /** The two filters of the backup query, and the grouping of the device list. */
  datatype Filter = ByHost(host: string) | ByDevice(id: string) | ByKey(key: string)

  predicate Picks(f: Filter, b: Backup) {
    match f
    case ByHost(h) => b.host == Some(h)
    case ByDevice(id) => b.deviceId == id
    case ByKey(k) => KeyOf(b) == k
  }

  /** The rows counted against the limit: by trimmed host, or by device id when there is no host. */
  function CountedRows(r: Request): Filter {
    if HostKey(r).Some? then ByHost(HostKey(r).value) else ByDevice(r.deviceId)
  }

  function Select(rows: seq<Backup>, f: Filter): seq<Backup> {
    if rows == [] then []
    else Select(rows[..|rows| - 1], f) + if Picks(f, rows[|rows| - 1]) then [rows[|rows| - 1]] else []
  }

  /** `order_by(created_at.asc()).first()` among the picked rows. */
  function OldestIndex(rows: seq<Backup>, f: Filter): (k: Option<nat>)
    ensures k.Some? ==> k.value < |rows| && Picks(f, rows[k.value])
    ensures k.Some? ==>
              forall j :: 0 <= j < |rows| && Picks(f, rows[j]) ==> rows[k.value].createdAt <= rows[j].createdAt
    ensures k.None? ==> forall j :: 0 <= j < |rows| ==> !Picks(f, rows[j])
  {
    if rows == [] then None
    else
      var n := |rows| - 1;
      var k := OldestIndex(rows[..n], f);
      if Picks(f, rows[n]) && (k.None? || rows[n].createdAt < rows[k.value].createdAt) then Some(n) else k
  }

  function Stored(r: Request, now: int): Backup {
    Backup(r.deviceId, r.host, r.content, now)
  }

  /** The row a request deletes: the oldest counted one when 90 or more are counted. */
  function Victim(rows: seq<Backup>, r: Request): (k: Option<nat>)
    ensures k.Some? ==> k.value < |rows| && Picks(CountedRows(r), rows[k.value])
  {
    if DeviceKey(r) != "" && |Select(rows, CountedRows(r))| >= KEEP then OldestIndex(rows, CountedRows(r)) else None
  }

  function Without(rows: seq<Backup>, k: nat): seq<Backup>
    requires k < |rows|
  {
    rows[..k] + rows[k + 1..]
  }

  /** The row a request stores, if it is not refused. */
  function Written(r: Request, now: int): seq<Backup> {
    if DeviceKey(r) == "" then [] else [Stored(r, now)]
  }

  function Created(rows: seq<Backup>, r: Request, now: int): seq<Backup> {
    var k := Victim(rows, r);
    (if k.Some? then Without(rows, k.value) else rows) + Written(r, now)
  }

  class BackupTable {
    var rows: seq<Backup>

    constructor ()
      ensures rows == []
    {
      rows := [];
    }

    method CreateBackup(r: Request, now: int) returns (ok: bool)
      modifies this
      ensures ok == (DeviceKey(r) != "")
      ensures rows == Created(old(rows), r, now)
    {
      ok := DeviceKey(r) != "";
      if !ok { return; }
      var f := CountedRows(r);
      var count := |Select(rows, f)|;
      if count >= KEEP {
        var oldest := OldestIndex(rows, f);
        if oldest.Some? {
          rows := rows[..oldest.value] + rows[oldest.value + 1..];
        }
      }
      rows := rows + [Stored(r, now)];
    }
  }

  /** A request with a host that is not blank, or with a device id, is stored with its columns as given,
      behind the others; any other request changes nothing. */
  lemma StoredAsGiven(rows: seq<Backup>, r: Request, now: int)
    ensures var usable := (r.host.Some? && Strip(r.host.value) != "") || r.deviceId != "";
            var after := Created(rows, r, now);
            && (DeviceKey(r) != "" <==> usable)
            && (usable ==> after != [] && after[|after| - 1] == Backup(r.deviceId, r.host, r.content, now) &&
                           |rows| <= |after| <= |rows| + 1)
            && (!usable ==> after == rows)
  {
    hide Strip, Select, OldestIndex;
    var v := Victim(rows, r);
    assert rows + [] == rows;
  }

  // ---------- the rows a filter picks ----------

  function OfHost(rows: seq<Backup>, h: string): seq<Backup> {
    Select(rows, ByHost(h))
  }

  ghost predicate InTimeOrder(rows: seq<Backup>) {
    forall i, j :: 0 <= i < j < |rows| ==> rows[i].createdAt < rows[j].createdAt
  }

  function LastOf(rows: seq<Backup>, n: nat): seq<Backup> {
    if |rows| <= n then rows else rows[|rows| - n..]
  }

  lemma {:induction false} SelectConcat(xs: seq<Backup>, ys: seq<Backup>, f: Filter)
    ensures Select(xs + ys, f) == Select(xs, f) + Select(ys, f)
    decreases |ys|
  {
    if ys == [] {
      assert xs + ys == xs;
    } else {
      assert (xs + ys)[..|xs + ys| - 1] == xs + ys[..|ys| - 1];
      SelectConcat(xs, ys[..|ys| - 1], f);
    }
  }

  lemma {:induction false} SelectNone(rows: seq<Backup>, f: Filter)
    requires forall i :: 0 <= i < |rows| ==> !Picks(f, rows[i])
    ensures Select(rows, f) == []
    decreases |rows|
  {
    if rows != [] { SelectNone(rows[..|rows| - 1], f); }
  }

  lemma SelectOne(b: Backup, f: Filter)
    ensures Select([b], f) == if Picks(f, b) then [b] else []
  {
    assert [b][..0] == [];
  }

  lemma SelectAround(a: seq<Backup>, x: Backup, b: seq<Backup>, f: Filter)
    ensures Select(a + ([x] + b), f) == Select(a, f) + ((if Picks(f, x) then [x] else []) + Select(b, f))
    ensures Select(a + b, f) == Select(a, f) + Select(b, f)
  {
    SelectConcat(a, [x] + b, f);
    SelectConcat([x], b, f);
    SelectConcat(a, b, f);
    SelectOne(x, f);
  }

  /** `ys` is `xs` without one occurrence of `x`. */
  ghost predicate OneRemoved(xs: seq<Backup>, x: Backup, ys: seq<Backup>) {
    exists i :: 0 <= i < |xs| && xs[i] == x && ys == xs[..i] + xs[i + 1..]
  }

  lemma WithoutSelect(rows: seq<Backup>, k: nat, g: Filter)
    requires k < |rows|
    ensures if Picks(g, rows[k]) then OneRemoved(Select(rows, g), rows[k], Select(Without(rows, k), g))
            else Select(Without(rows, k), g) == Select(rows, g)
  {
    hide Select;
    var a, x, b := rows[..k], rows[k], rows[k + 1..];
    assert rows == a + ([x] + b);
    SelectAround(a, x, b, g);
    var xs := Select(rows, g);
    if Picks(g, x) {
      var i := |Select(a, g)|;
      assert xs[i] == x && xs[..i] == Select(a, g) && xs[i + 1..] == Select(b, g);
    } else {
      assert [] + Select(b, g) == Select(b, g);
    }
  }

  lemma WithoutFirst(rows: seq<Backup>, k: nat, f: Filter)
    requires k < |rows| && Picks(f, rows[k]) && forall i :: 0 <= i < k ==> !Picks(f, rows[i])
    ensures Select(rows, f) != [] && Select(Without(rows, k), f) == Select(rows, f)[1..]
  {
    hide Select;
    var a, x, b := rows[..k], rows[k], rows[k + 1..];
    assert rows == a + ([x] + b);
    SelectAround(a, x, b, f);
    SelectNone(a, f);
    assert [] + ([x] + Select(b, f)) == [x] + Select(b, f);
  }

  /** In time order the oldest row a filter picks is the first it selects. */
  lemma WithoutOldest(rows: seq<Backup>, f: Filter)
    requires InTimeOrder(rows) && OldestIndex(rows, f).Some?
    ensures Select(rows, f) != [] && Select(Without(rows, OldestIndex(rows, f).value), f) == Select(rows, f)[1..]
  {
    hide Select, Without;
    var k := OldestIndex(rows, f).value;
    forall i | 0 <= i < k ensures !Picks(f, rows[i]) {
      assert rows[i].createdAt < rows[k].createdAt;
    }
    WithoutFirst(rows, k, f);
  }

  lemma VictimIffFull(rows: seq<Backup>, r: Request)
    ensures Victim(rows, r).Some? <==> DeviceKey(r) != "" && |Select(rows, CountedRows(r))| >= KEEP
  {
    hide Select;
    if OldestIndex(rows, CountedRows(r)).None? { SelectNone(rows, CountedRows(r)); }
  }

  lemma WithoutInOrder(rows: seq<Backup>, k: nat)
    requires InTimeOrder(rows) && k < |rows|
    ensures InTimeOrder(Without(rows, k)) && forall b :: b in Without(rows, k) ==> b in rows
  {
    var kept := Without(rows, k);
    forall i | 0 <= i < |kept| ensures kept[i] == rows[if i < k then i else i + 1] {}
  }

  lemma TimeOrderKept(rows: seq<Backup>, r: Request, now: int)
    requires InTimeOrder(rows) && forall b :: b in rows ==> b.createdAt < now
    ensures InTimeOrder(Created(rows, r, now))
    ensures forall b :: b in Created(rows, r, now) ==> b.createdAt <= now
  {
    hide Victim, Without;
    var v := Victim(rows, r);
    if v.Some? { WithoutInOrder(rows, v.value); }
    var kept := if v.Some? then Without(rows, v.value) else rows;
    forall i | 0 <= i < |kept| ensures kept[i].createdAt < now { assert kept[i] in kept; }
  }

  /** What a request adds to the rows a filter picks. */
  function Added(r: Request, now: int, g: Filter): seq<Backup> {
    if DeviceKey(r) != "" && Picks(g, Stored(r, now)) then [Stored(r, now)] else []
  }

  lemma CreatedSelect(rows: seq<Backup>, r: Request, now: int, g: Filter)
    ensures var v := Victim(rows, r);
            Select(Created(rows, r, now), g)
            == Select(if v.Some? then Without(rows, v.value) else rows, g) + Added(r, now, g)
  {
    hide Select;
    var v := Victim(rows, r);
    SelectConcat(if v.Some? then Without(rows, v.value) else rows, Written(r, now), g);
    SelectOne(Stored(r, now), g);
    SelectNone([], g);
  }

  /** One request: any filter loses at most the oldest row the request counts, and loses its own
      first row when that filter is the counted one. */
  lemma CreateStep(rows: seq<Backup>, r: Request, now: int, g: Filter)
    ensures var v, before, after := Victim(rows, r), Select(rows, g), Select(Created(rows, r, now), g);
            var added := Added(r, now, g);
            && |added| <= |after| && after[|after| - |added|..] == added
            && var kept := after[..|after| - |added|];
               && (v.Some? && Picks(g, rows[v.value]) ==> OneRemoved(before, rows[v.value], kept))
               && (v.None? || !Picks(g, rows[v.value]) ==> kept == before)
               && (InTimeOrder(rows) && g == CountedRows(r) ==>
                     kept == if |before| >= KEEP && DeviceKey(r) != "" then before[1..] else before)
  {
    hide Select;
    var v, before, after := Victim(rows, r), Select(rows, g), Select(Created(rows, r, now), g);
    var kept := Select(if v.Some? then Without(rows, v.value) else rows, g);
    CreatedSelect(rows, r, now, g);
    assert after[..|after| - |Added(r, now, g)|] == kept;
    VictimIffFull(rows, r);
    if v.Some? {
      WithoutSelect(rows, v.value, g);
      if InTimeOrder(rows) && g == CountedRows(r) { WithoutOldest(rows, g); }
    }
  }

  // ---------- runs ----------

  datatype Timed = Timed(request: Request, now: int)

  function Run(calls: seq<Timed>): seq<Backup> {
    if calls == [] then []
    else Created(Run(calls[..|calls| - 1]), calls[|calls| - 1].request, calls[|calls| - 1].now)
  }

  /** Every backup ever created, in order. */
  function Everything(calls: seq<Timed>): seq<Backup> {
    if calls == [] then []
    else Everything(calls[..|calls| - 1]) + Written(calls[|calls| - 1].request, calls[|calls| - 1].now)
  }

  predicate TrimmedHost(r: Request) {
    r.host.Some? && r.host.value != "" && Trimmed(r.host.value)
  }

  ghost predicate TimesIncrease(calls: seq<Timed>) {
    forall i, j :: 0 <= i < j < |calls| ==> calls[i].now < calls[j].now
  }

  lemma {:induction false} RunInTimeOrder(calls: seq<Timed>)
    requires TimesIncrease(calls)
    ensures InTimeOrder(Run(calls))
    ensures forall b :: b in Run(calls) ==> calls != [] && b.createdAt <= calls[|calls| - 1].now
    decreases |calls|
  {
    if calls != [] {
      var n := |calls| - 1;
      RunInTimeOrder(calls[..n]);
      assert n > 0 ==> calls[n - 1].now < calls[n].now;
      TimeOrderKept(Run(calls[..n]), calls[n].request, calls[n].now);
    }
  }

  lemma LastOfAppend(all: seq<Backup>, b: Backup, n: nat)
    requires n > 0
    ensures var last := LastOf(all, n);
            LastOf(all + [b], n) == (if |last| >= n then last[1..] else last) + [b]
  {
  }

  /** One device id, once without a usable host and once with one. */
  predicate Mixed(r: Request, q: Request) {
    r.deviceId == q.deviceId && HostKey(r).None? && HostKey(q).Some?
  }

  /** Hosts are trimmed, and no device id comes both with a host and without one. */
  ghost predicate Consistent(calls: seq<Timed>) {
    && (forall i :: 0 <= i < |calls| && HostKey(calls[i].request).Some? ==> TrimmedHost(calls[i].request))
    && (forall i, j :: 0 <= i < |calls| && 0 <= j < |calls| ==> !Mixed(calls[i].request, calls[j].request))
  }

  /** The filter is a host no request without a usable host gives, or a device id no request with
      one gives. */
  ghost predicate Identifies(f: Filter, calls: seq<Timed>) {
    match f
    case ByHost(h) =>
      forall i :: 0 <= i < |calls| && HostKey(calls[i].request).None? ==> calls[i].request.host != Some(h)
    case ByDevice(id) =>
      forall i :: 0 <= i < |calls| && HostKey(calls[i].request).Some? ==> calls[i].request.deviceId != id
    case ByKey(_) => false
  }

  ghost predicate From(b: Backup, calls: seq<Timed>) {
    exists i :: 0 <= i < |calls| && b == Stored(calls[i].request, calls[i].now)
  }

  lemma {:induction false} RowsComeFromCalls(calls: seq<Timed>)
    ensures forall b :: b in Run(calls) ==> From(b, calls)
    decreases |calls|
  {
    hide Victim;
    if calls != [] {
      var n := |calls| - 1;
      RowsComeFromCalls(calls[..n]);
      forall b | b in Run(calls) ensures From(b, calls) {
        if b in Run(calls[..n]) {
          var i :| 0 <= i < n && b == Stored(calls[..n][i].request, calls[..n][i].now);
          assert b == Stored(calls[i].request, calls[i].now);
        } else {
          assert b == Stored(calls[n].request, calls[n].now);
        }
      }
    }
  }

  /** In a consistent run a request counts, deletes and stores rows of one filter only. */
  lemma OneFilterOnly(calls: seq<Timed>, k: nat, f: Filter, b: Backup)
    requires k < |calls| && Consistent(calls) && Identifies(f, calls) && From(b, calls)
    ensures var r := calls[k].request;
            && (f == CountedRows(r) ==> Picks(f, Stored(r, calls[k].now)))
            && (f != CountedRows(r) ==> !Picks(f, Stored(r, calls[k].now)))
            && (f != CountedRows(r) && Picks(CountedRows(r), b) ==> !Picks(f, b))
  {
    var r := calls[k].request;
    var i :| 0 <= i < |calls| && b == Stored(calls[i].request, calls[i].now);
    assert HostKey(r).Some? ==> TrimmedHost(r);
    if HostKey(r).Some? { StripFixed(r.host.value); }
    assert b.host == HostKey(r) && HostKey(r).Some? ==> HostKey(calls[i].request).Some? by {
      if HostKey(r).Some? { StripFixed(HostKey(r).value); }
    }
  }

  lemma RetentionStep(calls: seq<Timed>, f: Filter)
    requires calls != [] && Consistent(calls) && Identifies(f, calls) && InTimeOrder(Run(calls[..|calls| - 1]))
    requires Select(Run(calls[..|calls| - 1]), f) == LastOf(Select(Everything(calls[..|calls| - 1]), f), KEEP)
    ensures Select(Run(calls), f) == LastOf(Select(Everything(calls), f), KEEP)
  {
    hide Select, Victim, Consistent, Identifies, HostKey, DeviceKey, CountedRows, Picks;
    var n := |calls| - 1;
    var r, now := calls[n].request, calls[n].now;
    var rows, all := Run(calls[..n]), Everything(calls[..n]);
    CreateStep(rows, r, now, f);
    SelectConcat(all, Written(r, now), f);
    SelectOne(Stored(r, now), f);
    SelectNone([], f);
    RowsComeFromCalls(calls);
    assert From(Stored(r, now), calls);
    OneFilterOnly(calls, n, f, Stored(r, now));
    var v := Victim(rows, r);
    if f == CountedRows(r) {
      LastOfAppend(Select(all, f), Stored(r, now), KEEP);
    } else if v.Some? {
      VictimFromCalls(calls, v.value);
      OneFilterOnly(calls, n, f, rows[v.value]);
    }
    var after := Select(Created(rows, r, now), f);
    assert after == after[..|after| - |Added(r, now, f)|] + Added(r, now, f);
  }

  lemma VictimFromCalls(calls: seq<Timed>, k: nat)
    requires calls != [] && k < |Run(calls[..|calls| - 1])|
    ensures From(Run(calls[..|calls| - 1])[k], calls)
  {
    var n := |calls| - 1;
    RowsComeFromCalls(calls[..n]);
    var b := Run(calls[..n])[k];
    assert From(b, calls[..n]);
    var i :| 0 <= i < n && b == Stored(calls[..n][i].request, calls[..n][i].now);
    assert b == Stored(calls[i].request, calls[i].now);
  }

  lemma Shorter(calls: seq<Timed>, f: Filter)
    requires calls != [] && Consistent(calls) && Identifies(f, calls) && TimesIncrease(calls)
    ensures var before := calls[..|calls| - 1]; Consistent(before) && Identifies(f, before) && TimesIncrease(before)
  {
  }

  /** In every run with increasing times, trimmed hosts and no device id used both with and without
      a host, the rows of each host, and of each device id used without one, are exactly the last
      90 backups created for it (all of them when there are fewer). */
  lemma {:induction false} RetentionIsLastNinety(calls: seq<Timed>, f: Filter)
    requires TimesIncrease(calls) && Consistent(calls) && Identifies(f, calls)
    ensures Select(Run(calls), f) == LastOf(Select(Everything(calls), f), KEEP)
    decreases |calls|
  {
    if calls != [] {
      hide Created, Consistent, Identifies, TimesIncrease;
      var n := |calls| - 1;
      Shorter(calls, f);
      RetentionIsLastNinety(calls[..n], f);
      RunInTimeOrder(calls[..n]);
      RetentionStep(calls, f);
    }
  }

  // ---------- exactly when rows are retained ----------

  lemma {:induction false} SelectMembers(rows: seq<Backup>, f: Filter)
    ensures forall b :: b in Select(rows, f) ==> b in rows
    decreases |rows|
  {
    if rows != [] {
      SelectMembers(rows[..|rows| - 1], f);
      assert forall b :: b in rows[..|rows| - 1] ==> b in rows;
    }
  }

  lemma {:induction false} SelectInOrder(rows: seq<Backup>, f: Filter)
    requires InTimeOrder(rows)
    ensures InTimeOrder(Select(rows, f))
    decreases |rows|
  {
    if rows != [] {
      var n := |rows| - 1;
      var init := Select(rows[..n], f);
      SelectInOrder(rows[..n], f);
      SelectMembers(rows[..n], f);
      forall i | 0 <= i < |init| ensures init[i].createdAt < rows[n].createdAt {
        assert init[i] in rows[..n];
        var k :| 0 <= k < n && rows[k] == init[i];
      }
    }
  }

  /** A request deletes a row of the filter exactly when it stores one and the filter is full, and
      then it deletes the filter's first row. */
  ghost predicate InTurn(rows: seq<Backup>, r: Request, now: int, f: Filter) {
    var v, picked := Victim(rows, r), Select(rows, f);
    var drops := v.Some? && Picks(f, rows[v.value]);
    && (drops <==> Added(r, now, f) != [] && |picked| >= KEEP)
    && (drops && picked != [] ==> rows[v.value] == picked[0])
  }

  lemma RemovedFirst(xs: seq<Backup>, x: Backup, ys: seq<Backup>)
    requires InTimeOrder(xs) && OneRemoved(xs, x, ys)
    ensures xs != [] && (ys == xs[1..] <==> x == xs[0])
  {
    var i :| 0 <= i < |xs| && xs[i] == x && ys == xs[..i] + xs[i + 1..];
    if i > 0 {
      assert ys[0] == xs[0] && xs[0].createdAt < xs[i].createdAt;
      assert |xs| > 1 && xs[1..][0] == xs[1] && xs[0].createdAt < xs[1].createdAt;
    }
  }

  lemma LastOfGrows(all: seq<Backup>, added: seq<Backup>)
    requires |added| <= 1
    ensures var last := LastOf(all, KEEP);
            LastOf(all + added, KEEP) == (if added != [] && |last| >= KEEP then last[1..] else last) + added
  {
    if added != [] {
      assert added == [added[0]];
      LastOfAppend(all, added[0], KEEP);
    } else {
      assert all + added == all && LastOf(all, KEEP) + added == LastOf(all, KEEP);
    }
  }

  lemma SameTail(xs: seq<Backup>, ys: seq<Backup>, tail: seq<Backup>)
    ensures xs + tail == ys + tail <==> xs == ys
  {
    if xs + tail == ys + tail {
      assert |xs| == |ys|;
      assert xs == (xs + tail)[..|xs|] && ys == (ys + tail)[..|ys|];
    }
  }

  lemma RetentionStepIff(rows: seq<Backup>, all: seq<Backup>, r: Request, now: int, f: Filter)
    requires InTimeOrder(rows) && Select(rows, f) == LastOf(all, KEEP)
    ensures Select(Created(rows, r, now), f) == LastOf(all + Added(r, now, f), KEEP) <==> InTurn(rows, r, now, f)
  {
    var picked, added := Select(rows, f), Added(r, now, f);
    assert |added| <= 1;
    LastOfGrows(all, added);
    hide Select, Victim, Picks, OneRemoved, InTimeOrder, Created, LastOf, Added;
    var after := Select(Created(rows, r, now), f);
    CreateStep(rows, r, now, f);
    var kept := after[..|after| - |added|];
    assert after == kept + added;
    var wanted := if added != [] && |picked| >= KEEP then picked[1..] else picked;
    SameTail(kept, wanted, added);
    var v := Victim(rows, r);
    if v.Some? && Picks(f, rows[v.value]) {
      SelectInOrder(rows, f);
      RemovedFirst(picked, rows[v.value], kept);
      RemovedShorter(picked, rows[v.value], kept);
    }
  }

  lemma RemovedShorter(xs: seq<Backup>, x: Backup, ys: seq<Backup>)
    requires OneRemoved(xs, x, ys)
    ensures |ys| == |xs| - 1
  {
  }

  ghost predicate Retained(calls: seq<Timed>, f: Filter) {
    Select(Run(calls), f) == LastOf(Select(Everything(calls), f), KEEP)
  }

  ghost predicate InTurnAt(calls: seq<Timed>, n: int, f: Filter)
    requires 0 <= n < |calls|
  {
    InTurn(Run(calls[..n]), calls[n].request, calls[n].now, f)
  }

  lemma RetainedOneMore(calls: seq<Timed>, f: Filter)
    requires calls != [] && TimesIncrease(calls) && Retained(calls[..|calls| - 1], f)
    ensures Retained(calls, f) <==> InTurnAt(calls, |calls| - 1, f)
  {
    hide Select, Created, InTurn;
    var n := |calls| - 1;
    var r, now := calls[n].request, calls[n].now;
    RunInTimeOrder(calls[..n]);
    RetentionStepIff(Run(calls[..n]), Select(Everything(calls[..n]), f), r, now, f);
    SelectConcat(Everything(calls[..n]), Written(r, now), f);
    SelectOne(Stored(r, now), f);
    SelectNone([], f);
  }

  /** In every run with increasing times, whatever the requests and whatever the filter: at every
      point its rows are the last 90 stored for it exactly when every request deletes in turn. */
  lemma {:induction false} RetentionIff(calls: seq<Timed>, f: Filter)
    requires TimesIncrease(calls)
    ensures (forall n :: 0 <= n <= |calls| ==> Retained(calls[..n], f)) <==>
            (forall n :: 0 <= n < |calls| ==> InTurnAt(calls, n, f))
    decreases |calls|
  {
    hide Retained, InTurnAt;
    if calls == [] {
      RetainedAtStart(f);
      assert forall n :: 0 <= n <= |calls| ==> calls[..n] == [];
    } else {
      var m := |calls| - 1;
      var before := calls[..m];
      RetentionIff(before, f);
      assert calls[..m + 1] == calls;
      forall n | 0 <= n <= m ensures before[..n] == calls[..n] {}
      forall n | 0 <= n < m ensures InTurnAt(before, n, f) <==> InTurnAt(calls, n, f) { SamePoint(calls, n, f); }
      if Retained(before, f) { RetainedOneMore(calls, f); }
      assert before[..m] == before;
    }
  }

  lemma RetainedAtStart(f: Filter)
    ensures Retained([], f)
  {
  }

  lemma SamePoint(calls: seq<Timed>, n: nat, f: Filter)
    requires n < |calls| - 1
    ensures InTurnAt(calls[..|calls| - 1], n, f) <==> InTurnAt(calls, n, f)
  {
    assert calls[..|calls| - 1][..n] == calls[..n];
  }

  // ---------- at most 90 a device ----------

  /** The row a request deletes belongs to the device the request is for. */
  predicate DeletesOwn(rows: seq<Backup>, r: Request) {
    var v := Victim(rows, r);
    v.Some? && KeyOf(rows[v.value]) == DeviceKey(r)
  }

  lemma KeyStep(rows: seq<Backup>, r: Request, now: int, key: string)
    ensures var before, after := |Select(rows, ByKey(key))|, |Select(Created(rows, r, now), ByKey(key))|;
            var v := Victim(rows, r);
            after == before + (if DeviceKey(r) == key && key != "" then 1 else 0)
                     - (if v.Some? && KeyOf(rows[v.value]) == key then 1 else 0)
  {
    hide Select, Victim, DeviceKey;
    var v := Victim(rows, r);
    CreateStep(rows, r, now, ByKey(key));
    if v.Some? && KeyOf(rows[v.value]) == key {
      var after, added := Select(Created(rows, r, now), ByKey(key)), Added(r, now, ByKey(key));
      RemovedShorter(Select(rows, ByKey(key)), rows[v.value], after[..|after| - |added|]);
    }
    assert KeyOf(Stored(r, now)) == DeviceKey(r) by { SameKey(r, now); }
  }

  lemma SameKey(r: Request, now: int)
    ensures KeyOf(Stored(r, now)) == DeviceKey(r)
  {
  }

  lemma {:induction false} SelectFewer(rows: seq<Backup>, f: Filter, g: Filter)
    requires forall b :: b in rows && Picks(f, b) ==> Picks(g, b)
    ensures |Select(rows, f)| <= |Select(rows, g)|
    decreases |rows|
  {
    hide Picks;
    if rows != [] { SelectFewer(rows[..|rows| - 1], f, g); }
  }

  /** A device with 90 backups has at most 90 after one more exactly when the deleted row is one of
      its own; for a request with a usable host, exactly when all 90 are stored under the trimmed
      host. */
  lemma LimitHoldsIff(rows: seq<Backup>, r: Request, now: int)
    requires DeviceKey(r) != "" && |Select(rows, ByKey(DeviceKey(r)))| == KEEP
    ensures |Select(Created(rows, r, now), ByKey(DeviceKey(r)))| <= KEEP <==> DeletesOwn(rows, r)
    ensures HostKey(r).Some? ==> (DeletesOwn(rows, r) <==> |Select(rows, ByHost(DeviceKey(r)))| == KEEP)
  {
    hide Select;
    KeyStep(rows, r, now, DeviceKey(r));
    VictimIffFull(rows, r);
    if HostKey(r).Some? {
      var key := DeviceKey(r);
      var _, _ := StripTrims(r.host.value);
      StripFixed(key);
      SelectFewer(rows, ByHost(key), ByKey(key));
    }
  }

  /** At every point of the run the device has at most 90 backups. */
  ghost predicate AlwaysLimited(calls: seq<Timed>, key: string) {
    forall n :: 0 <= n <= |calls| ==> |Select(Run(calls[..n]), ByKey(key))| <= KEEP
  }

  /** A request for a device that is full at its time deletes one of the device's rows. */
  ghost predicate MakesRoom(calls: seq<Timed>, n: int, key: string)
    requires 0 <= n < |calls|
  {
    var rows, r := Run(calls[..n]), calls[n].request;
    DeviceKey(r) == key && |Select(rows, ByKey(key))| >= KEEP ==> DeletesOwn(rows, r)
  }

  /** Over every run, a device has at most 90 backups at every point exactly when every request for
      it at a full device deletes one of its rows. */
  lemma {:induction false} LimitOverRunsIff(calls: seq<Timed>, key: string)
    requires key != ""
    ensures AlwaysLimited(calls, key) <==> forall n :: 0 <= n < |calls| ==> MakesRoom(calls, n, key)
    decreases |calls|
  {
    hide Select, Created, DeletesOwn;
    if calls == [] {
      SelectNone([], ByKey(key));
      assert forall n :: 0 <= n <= |calls| ==> calls[..n] == [];
    } else {
      var m := |calls| - 1;
      var before := calls[..m];
      LimitOverRunsIff(before, key);
      LimitOneMore(calls, key);
      hide MakesRoom;
      if AlwaysLimited(before, key) {
        assert before[..m] == before;
        LimitedStep(calls, key);
      }
    }
  }

  lemma LimitOneMore(calls: seq<Timed>, key: string)
    requires calls != []
    ensures var m := |calls| - 1;
            && (AlwaysLimited(calls, key) <==>
                AlwaysLimited(calls[..m], key) && |Select(Run(calls), ByKey(key))| <= KEEP)
            && forall n :: 0 <= n < m ==> (MakesRoom(calls[..m], n, key) <==> MakesRoom(calls, n, key))
  {
    hide Select, Run, DeletesOwn;
    var m := |calls| - 1;
    assert calls[..m + 1] == calls;
    forall n | 0 <= n <= m ensures calls[..m][..n] == calls[..n] {}
  }

  lemma LimitedStep(calls: seq<Timed>, key: string)
    requires calls != [] && key != "" && |Select(Run(calls[..|calls| - 1]), ByKey(key))| <= KEEP
    ensures |Select(Run(calls), ByKey(key))| <= KEEP <==> MakesRoom(calls, |calls| - 1, key)
  {
    hide Select, Created, Victim, DeviceKey;
    var n := |calls| - 1;
    KeyStep(Run(calls[..n]), calls[n].request, calls[n].now, key);
  }

  /** A request with a trimmed host at a device whose 90 rows are spelled in more than one way
      deletes nothing, and the device has 91. */
  lemma SpellingsBreakLimit(rows: seq<Backup>, r: Request, now: int)
    requires HostKey(r).Some? && |Select(rows, ByKey(DeviceKey(r)))| == KEEP
    requires |Select(rows, ByHost(DeviceKey(r)))| < KEEP
    ensures |Select(Created(rows, r, now), ByKey(DeviceKey(r)))| == KEEP + 1
  {
    hide Select;
    KeyStep(rows, r, now, DeviceKey(r));
    VictimIffFull(rows, r);
    var _, _ := StripTrims(r.host.value);
  }

  function Copies(n: nat, b: Backup, from: int): (rows: seq<Backup>)
    ensures |rows| == n && forall i :: 0 <= i < n ==> rows[i] == b.(createdAt := from + i)
    decreases n
  {
    if n == 0 then [] else [b.(createdAt := from)] + Copies(n - 1, b, from + 1)
  }

  /** 45 backups under a host and 45 under the same host with a blank behind it are 90 of one
      device; the next one makes 91. */
  lemma HalfSpacedHost(id: string, host: string, c: string)
    requires host != "" && Trimmed(host)
    ensures var plain, spaced := Backup(id, Some(host), c, 0), Backup(id, Some(host + " "), c, 0);
            var rows := Copies(45, plain, 0) + Copies(45, spaced, 45);
            && |Select(rows, ByKey(host))| == KEEP
            && |Select(Created(rows, Request(id, Some(host), c), 90), ByKey(host))| == KEEP + 1
  {
    hide Select, Copies;
    var plain := Copies(45, Backup(id, Some(host), c, 0), 0);
    var spaced := Copies(45, Backup(id, Some(host + " "), c, 0), 45);
    StripFixed(host);
    StripOneBlank(host);
    SelectAll(plain + spaced, ByKey(host));
    SelectConcat(plain, spaced, ByHost(host));
    SelectAll(plain, ByHost(host));
    SelectNone(spaced, ByHost(host));
    SpellingsBreakLimit(plain + spaced, Request(id, Some(host), c), 90);
  }

  lemma StripOneBlank(t: string)
    requires t != "" && Trimmed(t)
    ensures Strip(t + " ") == t
  {
    var s := t + " ";
    assert s[..|s| - 1] == t && s[0] == t[0];
    assert RStrip(s) == RStrip(t);
  }

  /** 90 backups of a device without a host, and an older one of the same device id with a host:
      the next one without a host deletes that host's row, and the device has 91. */
  lemma HostlessBreaksLimit(id: string, host: string, c: string)
    requires id != "" && host != "" && Trimmed(host) && host != id
    ensures var rows := [Backup(id, Some(host), c, 0)] + Copies(90, Backup(id, None, c, 0), 1);
            && |Select(rows, ByKey(id))| == KEEP
            && |Select(Created(rows, Request(id, None, c), 91), ByKey(id))| == KEEP + 1
  {
    hide Select, Copies;
    var first, others := Backup(id, Some(host), c, 0), Copies(90, Backup(id, None, c, 0), 1);
    var rows, r := [first] + others, Request(id, None, c);
    StripFixed(host);
    SelectConcat([first], others, ByKey(id));
    SelectOne(first, ByKey(id));
    SelectAll(others, ByKey(id));
    SelectAll(rows, ByDevice(id));
    VictimIffFull(rows, r);
    var v := Victim(rows, r).value;
    assert rows[v].createdAt <= rows[0].createdAt;
    assert v == 0;
    KeyStep(rows, r, 91, id);
  }

  // ---------- the rows of one spelling ----------

  /** For rows stored under the very host text of the request: with 90 of them, at most 90 remain
      exactly when the deleted row is stored under that text; with a usable host, exactly when it is
      given trimmed. */
  lemma SpellingLimitIff(rows: seq<Backup>, r: Request, now: int)
    requires r.host.Some? && |OfHost(rows, r.host.value)| == KEEP
    ensures var v := Victim(rows, r);
            |OfHost(Created(rows, r, now), r.host.value)| <= KEEP <==>
            DeviceKey(r) == "" || (v.Some? && rows[v.value].host == r.host)
    ensures HostKey(r).Some? ==>
              (|OfHost(Created(rows, r, now), r.host.value)| <= KEEP <==> Trimmed(r.host.value))
  {
    hide Select;
    CreateStep(rows, r, now, ByHost(r.host.value));
    VictimIffFull(rows, r);
    StripFixed(r.host.value);
  }

  /** A backup leaves the rows of all other hosts alone exactly when the row it deletes, if any, has
      no host or its own; with a usable host, exactly when that host is trimmed or the trimmed host
      has room. */
  lemma OthersUntouchedIff(rows: seq<Backup>, r: Request, now: int)
    ensures var v := Victim(rows, r);
            (forall h :: Some(h) != r.host ==> OfHost(Created(rows, r, now), h) == OfHost(rows, h)) <==>
            v.None? || rows[v.value].host == None || rows[v.value].host == r.host
    ensures HostKey(r).Some? ==>
              (Victim(rows, r).None? || rows[Victim(rows, r).value].host in {None, r.host} <==>
               Trimmed(r.host.value) || |OfHost(rows, HostKey(r).value)| < KEEP)
  {
    hide Select;
    var v := Victim(rows, r);
    VictimIffFull(rows, r);
    if r.host.Some? { StripFixed(r.host.value); }
    hide HostKey, DeviceKey, Victim, Created, Picks, Strip;
    if v.None? || rows[v.value].host == None || rows[v.value].host == r.host {
      forall h | Some(h) != r.host ensures OfHost(Created(rows, r, now), h) == OfHost(rows, h) {
        HostUntouched(rows, r, now, h);
      }
    } else {
      HostLosesOne(rows, r, now, rows[v.value].host.value);
    }
  }

  lemma HostUntouched(rows: seq<Backup>, r: Request, now: int, h: string)
    requires Some(h) != r.host && (Victim(rows, r).Some? ==> rows[Victim(rows, r).value].host != Some(h))
    ensures OfHost(Created(rows, r, now), h) == OfHost(rows, h)
  {
    hide Select;
    CreateStep(rows, r, now, ByHost(h));
    var after := OfHost(Created(rows, r, now), h);
    assert after[..|after|] == after;
  }

  lemma HostLosesOne(rows: seq<Backup>, r: Request, now: int, h: string)
    requires Some(h) != r.host && Victim(rows, r).Some? && rows[Victim(rows, r).value].host == Some(h)
    ensures OfHost(Created(rows, r, now), h) != OfHost(rows, h)
  {
    hide Select;
    CreateStep(rows, r, now, ByHost(h));
    assert |OfHost(Created(rows, r, now), h)| < |OfHost(rows, h)|;
  }

  /** A request without a usable host counts by device id and takes the oldest row of a full device,
      even when that row belongs to a host. */
  lemma HostlessTakesHostRow(rows: seq<Backup>, r: Request, now: int, h: string)
    requires InTimeOrder(rows) && |rows| == KEEP && HostKey(r).None? && r.deviceId != "" && r.host != Some(h)
    requires forall i :: 0 <= i < |rows| ==> rows[i].deviceId == r.deviceId && rows[i].host == Some(h)
    ensures OfHost(Created(rows, r, now), h) == OfHost(rows, h)[1..]
  {
    hide Select;
    SelectAll(rows, ByDevice(r.deviceId));
    SelectAll(rows, ByHost(h));
    CreatedSelect(rows, r, now, ByHost(h));
    VictimIffFull(rows, r);
    var k := Victim(rows, r).value;
    assert rows[k].createdAt <= rows[0].createdAt;
    assert Without(rows, k) == rows[1..];
    SelectAll(rows[1..], ByHost(h));
  }

  lemma {:induction false} SelectAll(rows: seq<Backup>, f: Filter)
    requires forall i :: 0 <= i < |rows| ==> Picks(f, rows[i])
    ensures Select(rows, f) == rows
    decreases |rows|
  {
    if rows != [] { SelectAll(rows[..|rows| - 1], f); }
  }
}
