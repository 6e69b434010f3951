/** The in-memory session store of package `ram`.

    The Go store runs a goroutine that owns the session table and serves
    commands sent over a channel. Here that serialisation is taken for
    granted: every command is a method that acts on the `Store` directly,
    and the clock is an integer `now` passed in by the caller.

    The table is three fields kept consistent by hand: the map `sessions`,
    the dense sequence `ids` (Go's `array`) and the counter `index`. `TableInv` states that
    consistency; every command keeps it, and each command's effect is given
    by a function on a `Table` value (`Created`, `Touched`, `Destroyed`,
    `WithData`) or, for the expiry sweep, by the relation `Swept`. */
module Ram {
  import opened Seqs

  // ----------------------------------------------------------------------
  // Durations: time.Duration is a signed 64-bit count of nanoseconds.

  const MinInt64: int := -0x8000_0000_0000_0000
  const MaxInt64: int := 0x7fff_ffff_ffff_ffff

  type Duration = x: int | -0x8000_0000_0000_0000 <= x <= 0x7fff_ffff_ffff_ffff

  const Second: int := 1_000_000_000
  const Minute: int := 60 * Second

  /** The sweep period is divided by this to give the default session lifetime. */
  const Divisor: int := 2

  /** Default sweep period, in minutes. */
  const DefaultPeriod: int := 20

  /** The largest number of whole seconds whose Duration fits in 64 bits. */
  const MaxSeconds: int := 9_223_372_036

  /** Two's-complement wrap-around of a 64-bit signed multiplication result. */
  function Wrap64(x: int): (r: Duration)
    ensures (r - x) % 0x1_0000_0000_0000_0000 == 0
    ensures MinInt64 <= x <= MaxInt64 ==> r == x
  {
    (x + 0x8000_0000_0000_0000) % 0x1_0000_0000_0000_0000 - 0x8000_0000_0000_0000
  }

  /** `time.Duration(secs) * time.Second`, which wraps on overflow. */
  function SecondsToDuration(secs: Duration): Duration {
    Wrap64(secs * Second)
  }

  /** Go's integer division, which truncates toward zero. */
  function DivTrunc(a: int, b: int): (q: int)
    requires b > 0
    ensures 0 <= a ==> 0 <= a - b * q < b
    ensures a < 0 ==> -b < a - b * q <= 0
  {
    if a >= 0 then a / b else -((-a) / b)
  }

  /** The lifetime a new session gets: the requested one when positive,
      otherwise the store's period divided by `Divisor`. */
  function MaxAge(requested: Duration, period: Duration): Duration {
    if requested <= 0 then DivTrunc(period, Divisor) else requested
  }

  /** A requested lifetime of `secs` seconds is kept, converted to
      nanoseconds, when it is positive and fits; a non-positive request
      that fits gives half the period. */
  lemma MaxAgePolicy(secs: Duration, period: Duration)
    ensures 0 < secs <= MaxSeconds ==> MaxAge(SecondsToDuration(secs), period) == secs * Second > 0
    ensures -MaxSeconds <= secs <= 0 ==> MaxAge(SecondsToDuration(secs), period) == DivTrunc(period, Divisor)
    ensures period >= 0 && secs <= 0 && -MaxSeconds <= secs ==>
      0 <= MaxAge(SecondsToDuration(secs), period) && 2 * MaxAge(SecondsToDuration(secs), period) <= period
  {
    if -MaxSeconds <= secs <= MaxSeconds {
      assert MinInt64 <= secs * Second <= MaxInt64;
    }
  }

  /** A request one second beyond `MaxSeconds` overflows to a negative
      Duration, so the session silently gets the default lifetime instead. */
  lemma OversizedMaxAgeWraps(period: Duration)
    ensures SecondsToDuration(MaxSeconds + 1) < 0
    ensures MaxAge(SecondsToDuration(MaxSeconds + 1), period) == DivTrunc(period, Divisor)
  {
    assert (MaxSeconds + 1) * Second == 9_223_372_037_000_000_000;
  }

  /** A request one second below `-MaxSeconds` overflows to a positive
      Duration of about 292 years, which the session keeps as its lifetime. */
  lemma UndersizedMaxAgeWraps(period: Duration)
    ensures SecondsToDuration(-MaxSeconds - 1) > 0
    ensures MaxAge(SecondsToDuration(-MaxSeconds - 1), period) == 9_223_372_036_709_551_616
  {
    assert (-MaxSeconds - 1) * Second == -9_223_372_037_000_000_000;
  }

  // ----------------------------------------------------------------------
  // Identifiers, errors, results.

  /** A 128-bit session identifier; its validity test belongs to the uuid
      library and reaches the model as `Store.poorlyFormed`. */
  datatype Uuid = Uuid(hi: bv64, lo: bv64)

  const Nil: Uuid := Uuid(0, 0)

  /** The package's error values (the `fname:` prefix that wraps them is not modelled). */
  datatype Error = ErrNoSession | ErrPoorForm | ErrTimedOut | ErrNoData

  datatype Option<T> = None | Some(value: T)

  datatype Result<T> = Ok(value: T) | Err(error: Error)

  // ----------------------------------------------------------------------
  // Sessions.

  /** A session as handed to callers, and as held in the table. `sto` is the
      back-reference to the owning store (null in the zero Session). */
  datatype Session<V> = Session(
    id: Uuid,
    data: map<string, V>,
    created: int,
    modified: int,
    index: int,
    sto: Store?<V>,
    maxage: Duration,
    active: bool)
  {
    /** The copy's own `active` flag, not re-checked against the table. */
    function Valid(): bool {
      active
    }

    /** Stores `value` under `key`. The copy is only a handle: the write goes
        to the value bag of the table entry that a touch returns. */
    method Set(key: string, value: V, now: int) returns (err: Option<Error>)
      requires sto != null ==> sto.Valid()
      modifies sto
      ensures sto == null || !active ==> err == Some(ErrTimedOut)
      ensures sto != null && !active ==> sto.Snapshot() == old(sto.Snapshot())
      ensures sto != null && active && id !in old(sto.sessions) ==>
        err == Some(ErrTimedOut) && sto.Snapshot() == old(sto.Snapshot())
      ensures sto != null && active && id in old(sto.sessions) ==>
        err == None &&
        sto.Snapshot() == WithData(Touched(old(sto.Snapshot()), id, now), id, old(sto.sessions[id].data)[key := value])
      ensures sto != null ==> sto.period == old(sto.period)
      ensures sto != null ==> sto.Valid()
    {
      if sto == null || !active {
        return Some(ErrTimedOut);
      }
      var s := sto.CmdTouch(id, now);
      if !s.active {
        return Some(ErrTimedOut);
      }
      WithDataInv(sto.Snapshot(), id, s.data[key := value], sto);
      sto.sessions := sto.sessions[id := s.(data := s.data[key := value])];
      err := None;
    }

    /** Looks `key` up in the value bag of the table entry, refreshing it. */
    method Get(key: string, now: int) returns (r: Result<V>)
      requires sto != null ==> sto.Valid()
      modifies sto
      ensures sto == null || !active ==> r == Err(ErrPoorForm)
      ensures sto != null && !active ==> sto.Snapshot() == old(sto.Snapshot())
      ensures sto != null && active && id !in old(sto.sessions) ==>
        r == Err(ErrNoSession) && sto.Snapshot() == old(sto.Snapshot())
      ensures sto != null && active && id in old(sto.sessions) ==>
        sto.Snapshot() == Touched(old(sto.Snapshot()), id, now) &&
        r == if key in old(sto.sessions[id].data) then Ok(old(sto.sessions[id].data)[key]) else Err(ErrNoData)
      ensures sto != null ==> sto.period == old(sto.period)
      ensures sto != null ==> sto.Valid()
    {
      if sto == null || !active {
        return Err(ErrPoorForm);
      }
      var s := sto.CmdTouch(id, now);
      if !s.active {
        return Err(ErrNoSession);
      }
      if key !in s.data {
        return Err(ErrNoData);
      }
      r := Ok(s.data[key]);
    }

    /** Deletes `key` from the value bag of the table entry, refreshing it. */
    method Del(key: string, now: int) returns (err: Option<Error>)
      requires sto != null ==> sto.Valid()
      modifies sto
      ensures sto == null || !active ==> err == Some(ErrPoorForm)
      ensures sto != null && !active ==> sto.Snapshot() == old(sto.Snapshot())
      ensures sto != null && active && id !in old(sto.sessions) ==>
        err == Some(ErrNoSession) && sto.Snapshot() == old(sto.Snapshot())
      ensures sto != null && active && id in old(sto.sessions) ==>
        err == None &&
        sto.Snapshot() == WithData(Touched(old(sto.Snapshot()), id, now), id, old(sto.sessions[id].data) - {key})
      ensures sto != null ==> sto.period == old(sto.period)
      ensures sto != null ==> sto.Valid()
    {
      if sto == null || !active {
        return Some(ErrPoorForm);
      }
      var s := sto.CmdTouch(id, now);
      if !s.active {
        return Some(ErrNoSession);
      }
      WithDataInv(sto.Snapshot(), id, s.data - {key}, sto);
      sto.sessions := sto.sessions[id := s.(data := s.data - {key})];
      err := None;
    }
  }

  /** Every session held in a consistent table reports itself valid; the
      zero Session, the reply to a missing id, does not. */
  lemma EntriesValid<V>(t: Table<V>)
    requires TableInv(t)
    ensures forall k :: k in t.sessions ==> t.sessions[k].Valid()
    ensures !Zero<V>().Valid()
  {
  }

  /** Go's zero `Session{}`: inactive and bound to no store. */
  function Zero<V>(): Session<V> {
    Session(Nil, map[], 0, 0, 0, null, 0, false)
  }

  /** The session `create` builds for `key` when the id is free. */
  function NewSession<V>(key: Uuid, maxage: Duration, period: Duration, now: int, index: int, sto: Store?<V>): Session<V> {
    Session(key, map[], now, now, index, sto, MaxAge(maxage, period), true)
  }

  // ----------------------------------------------------------------------
  // The session table as a value, and what each command does to it.

  datatype Table<V> = Table(sessions: map<Uuid, Session<V>>, ids: seq<Uuid>, index: int)

  /** The table is consistent: `ids` lists the ids of `sessions`, each at
      the position its session records in `index`, and the counter `index`
      is the length of `ids`. Every entry is active and keyed by its own id. */
  ghost predicate TableInv<V>(t: Table<V>) {
    && t.index == |t.ids|
    && (forall i :: 0 <= i < |t.ids| ==> t.ids[i] in t.sessions && t.sessions[t.ids[i]].index == i)
    && (forall k :: k in t.sessions ==> 0 <= t.sessions[k].index < |t.ids| && t.ids[t.sessions[k].index] == k)
    && (forall k :: k in t.sessions ==> t.sessions[k].id == k && t.sessions[k].active)
  }

  /** The table is consistent and every entry points back to the store `sto`. */
  ghost predicate Owned<V>(t: Table<V>, sto: Store?<V>) {
    TableInv(t) && forall k :: k in t.sessions ==> t.sessions[k].sto == sto
  }

  /** A consistent table has no repeated id and `|ids| == |sessions| == index`. */
  lemma InvSizes<V>(t: Table<V>)
    requires TableInv(t)
    ensures Distinct(t.ids)
    ensures |t.sessions| == |t.ids| == t.index
  {
    assert t.sessions.Keys == Elements(t.ids);
    DistinctCard(t.ids);
  }

  /** `create` on a free id: insert, append the id, bump the counter. */
  function Created<V>(t: Table<V>, s: Session<V>): Table<V> {
    Table(t.sessions[s.id := s], t.ids + [s.id], t.index + 1)
  }

  /** Creating an active session on a free id at position `index` keeps the
      table consistent and adds exactly one entry, at the end of `ids`. */
  lemma CreatedInv<V>(t: Table<V>, s: Session<V>)
    requires TableInv(t) && s.id !in t.sessions && s.index == t.index && s.active
    ensures TableInv(Created(t, s))
    ensures |Created(t, s).sessions| == |t.sessions| + 1
    ensures Created(t, s).ids[s.index] == s.id
  {
    var r := Created(t, s);
    forall i | 0 <= i < |r.ids|
      ensures r.ids[i] in r.sessions && r.sessions[r.ids[i]].index == i
    {
      if i < |t.ids| {
        assert r.ids[i] == t.ids[i] && t.ids[i] in t.sessions;
      }
    }
    forall k | k in r.sessions
      ensures 0 <= r.sessions[k].index < |r.ids| && r.ids[r.sessions[k].index] == k
    {
      if k != s.id {
        assert r.ids[t.sessions[k].index] == t.ids[t.sessions[k].index];
      }
    }
    InvSizes(t);
  }

  /** The same, for a table whose entries all point back to the store `sto`. */
  lemma CreatedOwned<V>(t: Table<V>, s: Session<V>, sto: Store?<V>)
    requires Owned(t, sto) && s.id !in t.sessions && s.index == t.index && s.active && s.sto == sto
    ensures Owned(Created(t, s), sto)
  {
    CreatedInv(t, s);
  }

  /** `touch`: refresh the entry's `modified` time, if there is one. */
  function Touched<V>(t: Table<V>, key: Uuid, now: int): Table<V> {
    if key in t.sessions then t.(sessions := t.sessions[key := t.sessions[key].(modified := now)]) else t
  }

  /** Replace the value bag of entry `id`, if there is one. */
  function WithData<V>(t: Table<V>, id: Uuid, data: map<string, V>): Table<V> {
    if id in t.sessions then t.(sessions := t.sessions[id := t.sessions[id].(data := data)]) else t
  }

  /** Consistency depends only on the ids, the counter and each entry's
      index, id and active flag. */
  lemma InvTransfer<V>(t: Table<V>, u: Table<V>)
    requires TableInv(t)
    requires u.ids == t.ids && u.index == t.index && u.sessions.Keys == t.sessions.Keys
    requires forall k :: k in u.sessions ==>
      u.sessions[k].index == t.sessions[k].index && u.sessions[k].id == t.sessions[k].id && u.sessions[k].active == t.sessions[k].active
    ensures TableInv(u)
  {
    forall i | 0 <= i < |u.ids|
      ensures u.ids[i] in u.sessions && u.sessions[u.ids[i]].index == i
    {
      assert t.ids[i] in t.sessions;
    }
    forall k | k in u.sessions
      ensures 0 <= u.sessions[k].index < |u.ids| && u.ids[u.sessions[k].index] == k
    {
      assert k in t.sessions;
    }
  }

  /** Touching an entry keeps the table consistent and owned by the same
      store, and changes nothing but that entry; a touched entry is not
      expired at the time of the touch unless its lifetime is negative. */
  lemma TouchedInv<V>(t: Table<V>, key: Uuid, now: int, sto: Store?<V>)
    requires Owned(t, sto)
    ensures Owned(Touched(t, key, now), sto)
    ensures Touched(t, key, now).ids == t.ids && Touched(t, key, now).sessions.Keys == t.sessions.Keys
    ensures forall k :: k in t.sessions && k != key ==> Touched(t, key, now).sessions[k] == t.sessions[k]
    ensures key in t.sessions && t.sessions[key].maxage >= 0 ==> !Expired(Touched(t, key, now).sessions[key], now)
  {
    InvTransfer(t, Touched(t, key, now));
  }

  /** Rewriting an entry's value bag keeps the table consistent and owned
      by the same store, and changes nothing else. */
  lemma WithDataInv<V>(t: Table<V>, id: Uuid, data: map<string, V>, sto: Store?<V>)
    requires Owned(t, sto)
    ensures Owned(WithData(t, id, data), sto)
    ensures WithData(t, id, data).ids == t.ids && WithData(t, id, data).sessions.Keys == t.sessions.Keys
    ensures id in t.sessions ==> WithData(t, id, data).sessions[id].data == data
    ensures forall k :: k in t.sessions && k != id ==> WithData(t, id, data).sessions[k] == t.sessions[k]
  {
    InvTransfer(t, WithData(t, id, data));
  }

  /** The index an entry has after the entry at position `p` is removed. */
  function Shift<V>(s: Session<V>, p: int): Session<V> {
    if s.index > p then s.(index := s.index - 1) else s
  }

  /** `Store.destroy`: splice the id out of `ids`, decrement the counter
      and the index of every later entry, and drop the entry. */
  function Destroyed<V>(t: Table<V>, key: Uuid): Table<V>
    requires TableInv(t)
  {
    if key !in t.sessions then t
    else
      var p := t.sessions[key].index;
      Table(map k | k in t.sessions && k != key :: Shift(t.sessions[k], p),
            t.ids[..p] + t.ids[p + 1..],
            t.index - 1)
  }

  /** Position `i` of the compacted ids names an entry that records `i`. */
  lemma DestroyedAt<V>(t: Table<V>, key: Uuid, i: int)
    requires TableInv(t) && key in t.sessions
    requires 0 <= i < |Destroyed(t, key).ids|
    ensures Destroyed(t, key).ids[i] in Destroyed(t, key).sessions
    ensures Destroyed(t, key).sessions[Destroyed(t, key).ids[i]].index == i
  {
    var p := t.sessions[key].index;
    var j := if i < p then i else i + 1;
    assert Destroyed(t, key).ids[i] == t.ids[j];
    assert t.sessions[t.ids[j]].index == j;
  }

  /** A surviving entry records the position it has in the compacted ids. */
  lemma DestroyedEntry<V>(t: Table<V>, key: Uuid, k: Uuid)
    requires TableInv(t) && key in t.sessions
    requires k in Destroyed(t, key).sessions
    ensures 0 <= Destroyed(t, key).sessions[k].index < |Destroyed(t, key).ids|
    ensures Destroyed(t, key).ids[Destroyed(t, key).sessions[k].index] == k
    ensures Destroyed(t, key).sessions[k].id == k && Destroyed(t, key).sessions[k].active
  {
    var p := t.sessions[key].index;
    var r := Destroyed(t, key);
    var j := t.sessions[k].index;
    assert r.sessions[k] == Shift(t.sessions[k], p);
    assert t.ids[j] == k;
    if j < p {
      assert r.ids[j] == t.ids[j];
    } else {
      assert j != p;
      assert r.ids[j - 1] == t.ids[j];
    }
  }

  /** Removing entry `key` and compacting the positions after it gives a
      consistent table. */
  lemma DestroyedConsistent<V>(t: Table<V>, key: Uuid)
    requires TableInv(t) && key in t.sessions
    ensures TableInv(Destroyed(t, key))
  {
    var r := Destroyed(t, key);
    forall i | 0 <= i < |r.ids|
      ensures r.ids[i] in r.sessions && r.sessions[r.ids[i]].index == i
    {
      DestroyedAt(t, key, i);
    }
    forall k | k in r.sessions
      ensures 0 <= r.sessions[k].index < |r.ids| && r.ids[r.sessions[k].index] == k
      ensures r.sessions[k].id == k && r.sessions[k].active
    {
      DestroyedEntry(t, key, k);
    }
  }

  /** The compacted ids are the old ones with `key` filtered out. */
  lemma DestroyedOrder<V>(t: Table<V>, key: Uuid)
    requires TableInv(t) && key in t.sessions
    ensures Destroyed(t, key).ids == Keep(t.ids, t.sessions.Keys - {key})
  {
    InvSizes(t);
    KeepAll(t.ids, t.sessions.Keys);
    KeepRemoveAt(t.ids, t.sessions.Keys, t.sessions[key].index);
  }

  /** Destroying a present id keeps the table consistent, removes exactly
      that id, and leaves the other ids in their old order. */
  lemma DestroyedInv<V>(t: Table<V>, key: Uuid)
    requires TableInv(t) && key in t.sessions
    ensures TableInv(Destroyed(t, key))
    ensures Destroyed(t, key).sessions.Keys == t.sessions.Keys - {key}
    ensures Destroyed(t, key).ids == Keep(t.ids, t.sessions.Keys - {key})
    ensures |Destroyed(t, key).sessions| == |t.sessions| - 1
  {
    DestroyedConsistent(t, key);
    DestroyedOrder(t, key);
    var r := Destroyed(t, key);
    assert r.sessions.Keys == t.sessions.Keys - {key};
    assert |r.sessions.Keys| == |t.sessions.Keys| - 1;
  }

  /** Destroying an entry leaves the other entries' owning store as it was. */
  lemma DestroyedKeepsStore<V>(t: Table<V>, key: Uuid, sto: Store?<V>)
    requires TableInv(t) && forall k :: k in t.sessions ==> t.sessions[k].sto == sto
    ensures forall k :: k in Destroyed(t, key).sessions ==> Destroyed(t, key).sessions[k].sto == sto
  {
  }

  /** Seen from `ids`: the entries before the destroyed one keep their
      session unchanged, and every entry after it keeps its session with the
      stored index decremented by exactly one. */
  lemma DestroyedShifts<V>(t: Table<V>, key: Uuid)
    requires TableInv(t) && key in t.sessions
    ensures forall i :: 0 <= i < t.sessions[key].index ==>
      Destroyed(t, key).sessions[t.ids[i]] == t.sessions[t.ids[i]]
    ensures forall i :: t.sessions[key].index < i < |t.ids| ==>
      Destroyed(t, key).sessions[t.ids[i]] == t.sessions[t.ids[i]].(index := i - 1)
  {
    InvSizes(t);
  }

  /** Destroy is idempotent, and afterwards the id is free to be created again. */
  lemma DestroyIdempotent<V>(t: Table<V>, key: Uuid, s: Session<V>)
    requires TableInv(t)
    ensures TableInv(Destroyed(t, key)) && key !in Destroyed(t, key).sessions
    ensures Destroyed(Destroyed(t, key), key) == Destroyed(t, key)
    ensures s.id == key && s.index == Destroyed(t, key).index && s.active ==>
      TableInv(Created(Destroyed(t, key), s))
  {
    if key in t.sessions {
      DestroyedInv(t, key);
    }
    if s.id == key && s.index == Destroyed(t, key).index && s.active {
      CreatedInv(Destroyed(t, key), s);
    }
  }

  /** The sessions map part-way through the renumbering loop of
      `Store.destroy`: the entries recorded at positions `p + 1 .. i` have
      been moved down by one. */
  ghost function Renumbered<V>(m: map<Uuid, Session<V>>, p: int, i: int): map<Uuid, Session<V>> {
    map k | k in m :: if p < m[k].index <= i then m[k].(index := m[k].index - 1) else m[k]
  }

  lemma RenumberedStart<V>(m: map<Uuid, Session<V>>, p: int)
    ensures Renumbered(m, p, p) == m
  {
  }

  /** One turn of the renumbering loop moves the entry at position `i + 1`. */
  lemma RenumberedStep<V>(t: Table<V>, p: int, i: int)
    requires TableInv(t) && 0 <= p <= i && i + 1 < |t.ids|
    ensures t.ids[i + 1] in Renumbered(t.sessions, p, i)
    ensures Renumbered(t.sessions, p, i)[t.ids[i + 1]] == t.sessions[t.ids[i + 1]]
    ensures Renumbered(t.sessions, p, i)[t.ids[i + 1] := t.sessions[t.ids[i + 1]].(index := i)] == Renumbered(t.sessions, p, i + 1)
  {
    var id := t.ids[i + 1];
    var a := Renumbered(t.sessions, p, i)[id := t.sessions[id].(index := i)];
    var b := Renumbered(t.sessions, p, i + 1);
    assert a.Keys == b.Keys;
    forall k | k in a
      ensures a[k] == b[k]
    {
      if k != id {
        assert t.sessions[k].index != i + 1 by {
          assert t.ids[t.sessions[k].index] == k;
        }
      }
    }
  }

  lemma RenumberedDone<V>(t: Table<V>, key: Uuid)
    requires TableInv(t) && key in t.sessions
    ensures Renumbered(t.sessions, t.sessions[key].index, |t.ids| - 1) - {key} == Destroyed(t, key).sessions
  {
  }

  /** When the loop has reached the end, dropping `key` gives `Destroyed`,
      which is consistent and keeps each entry's owning store. */
  lemma DestroyedFrom<V>(t: Table<V>, key: Uuid, sto: Store?<V>, rest: map<Uuid, Session<V>>, compacted: seq<Uuid>)
    requires TableInv(t) && key in t.sessions
    requires forall k :: k in t.sessions ==> t.sessions[k].sto == sto
    requires rest == Renumbered(t.sessions, t.sessions[key].index, |t.ids| - 1) - {key}
    requires compacted == t.ids[..t.sessions[key].index] + t.ids[t.sessions[key].index + 1..]
    ensures Destroyed(t, key) == Table(rest, compacted, t.index - 1)
    ensures Owned(Destroyed(t, key), sto)
  {
    RenumberedDone(t, key);
    DestroyedInv(t, key);
    DestroyedKeepsStore(t, key, sto);
  }

  /** The renumbering loop of `Store.destroy`: each id listed after position
      `p` has its entry's index moved down by one. */
  method Renumber<V>(m: map<Uuid, Session<V>>, ids: seq<Uuid>, p: int) returns (r: map<Uuid, Session<V>>)
    requires TableInv(Table(m, ids, |ids|)) && 0 <= p < |ids|
    ensures r == Renumbered(m, p, |ids| - 1)
  {
    ghost var t := Table(m, ids, |ids|);
    r := m;
    RenumberedStart(m, p);
    for i := p to |ids| - 1
      invariant r == Renumbered(m, p, i)
    {
      var id := ids[i + 1];
      RenumberedStep(t, p, i);
      var s := r[id];
      r := r[id := s.(index := s.index - 1)];
    }
  }

  /** The sweep's test: idle for longer than the session's lifetime. */
  ghost predicate Expired<V>(s: Session<V>, now: int) {
    now - s.modified > s.maxage
  }

  /** `t'` is `t` after the expiry sweep at time `now`: exactly the sessions
      that were not expired remain, unchanged but for their index, in their
      old ids order, and the table is consistent. */
  ghost predicate Swept<V>(t: Table<V>, t': Table<V>, now: int) {
    && TableInv(t')
    && (forall k :: k in t'.sessions <==> k in t.sessions && !Expired(t.sessions[k], now))
    && (forall k :: k in t'.sessions ==> k in t.sessions && t'.sessions[k] == t.sessions[k].(index := t'.sessions[k].index))
    && t'.ids == Keep(t.ids, t'.sessions.Keys)
  }

  /** What the sweep promises: no session left is expired, every session
      that was not expired is still there with its value bag, and no id is
      added. */
  lemma SweptOutcome<V>(t: Table<V>, t': Table<V>, now: int)
    requires Swept(t, t', now)
    ensures forall k :: k in t'.sessions ==> !Expired(t'.sessions[k], now)
    ensures forall k :: k in t.sessions && !Expired(t.sessions[k], now) ==>
      k in t'.sessions && t'.sessions[k].data == t.sessions[k].data
    ensures t'.sessions.Keys <= t.sessions.Keys
  {
    forall k | k in t'.sessions
      ensures !Expired(t'.sessions[k], now)
    {
      assert t'.sessions[k].modified == t.sessions[k].modified && t'.sessions[k].maxage == t.sessions[k].maxage;
    }
  }

  /** The sweep part-way: the keys still to visit are `todo`; of the others,
      exactly the expired ones are gone. */
  ghost predicate SweepProgress<V>(t: Table<V>, u: Table<V>, todo: set<Uuid>, now: int) {
    && TableInv(u)
    && todo <= u.sessions.Keys
    && (forall k :: k in u.sessions <==> k in t.sessions && (k in todo || !Expired(t.sessions[k], now)))
    && (forall k :: k in u.sessions ==> u.sessions[k] == t.sessions[k].(index := u.sessions[k].index))
    && u.ids == Keep(t.ids, u.sessions.Keys)
  }

  lemma SweepStart<V>(t: Table<V>, now: int)
    requires TableInv(t)
    ensures SweepProgress(t, t, t.sessions.Keys, now)
  {
    KeepAll(t.ids, t.sessions.Keys);
  }

  /** Destroying an expired key during the sweep: the ids stay the filter
      of the original ids by the remaining keys. */
  lemma SweepDropIds<V>(t: Table<V>, u: Table<V>, key: Uuid)
    requires TableInv(t) && TableInv(u) && key in u.sessions && u.ids == Keep(t.ids, u.sessions.Keys)
    ensures Destroyed(u, key).ids == Keep(t.ids, u.sessions.Keys - {key})
  {
    InvSizes(t);
    var p := u.sessions[key].index;
    assert Keep(t.ids, u.sessions.Keys)[p] == key;
    KeepRemoveAt(t.ids, u.sessions.Keys, p);
  }

  /** Destroying an expired key during the sweep: the remaining entries are
      still the original ones but for their index. */
  lemma SweepDropEntries<V>(t: Table<V>, u: Table<V>, key: Uuid)
    requires TableInv(u) && key in u.sessions
    requires forall k :: k in u.sessions ==> k in t.sessions && u.sessions[k] == t.sessions[k].(index := u.sessions[k].index)
    ensures forall k :: k in Destroyed(u, key).sessions ==>
      Destroyed(u, key).sessions[k] == t.sessions[k].(index := Destroyed(u, key).sessions[k].index)
  {
    var r := Destroyed(u, key);
    forall k | k in r.sessions
      ensures r.sessions[k] == t.sessions[k].(index := r.sessions[k].index)
    {
      assert r.sessions[k] == u.sessions[k].(index := r.sessions[k].index);
    }
  }

  /** Visiting one key keeps the sweep on track: an expired session is
      destroyed, any other is left alone. */
  lemma SweepVisit<V>(t: Table<V>, u: Table<V>, todo: set<Uuid>, key: Uuid, now: int)
    requires TableInv(t) && SweepProgress(t, u, todo, now) && key in todo
    ensures Expired(u.sessions[key], now) ==> SweepProgress(t, Destroyed(u, key), todo - {key}, now)
    ensures !Expired(u.sessions[key], now) ==> SweepProgress(t, u, todo - {key}, now)
  {
    if Expired(u.sessions[key], now) {
      var r := Destroyed(u, key);
      DestroyedInv(u, key);
      SweepDropIds(t, u, key);
      SweepDropEntries(t, u, key);
      assert Expired(t.sessions[key], now);
    }
  }

  /** The sweep's outcome does not depend on the order in which it visits
      the keys: `Swept` determines the new table. */
  lemma SweptUnique<V>(t: Table<V>, a: Table<V>, b: Table<V>, now: int)
    requires Swept(t, a, now) && Swept(t, b, now)
    ensures a == b
  {
    assert a.sessions.Keys == b.sessions.Keys;
    assert a.ids == b.ids;
    InvSizes(a);
    forall k | k in a.sessions
      ensures a.sessions[k] == b.sessions[k]
    {
      SameIds(a, b, k);
    }
    MapExt(a.sessions, b.sessions);
  }

  /** Two maps with the same keys and the same value at each key are equal. */
  lemma MapExt<K, W>(m: map<K, W>, n: map<K, W>)
    requires m.Keys == n.Keys && forall k :: k in m ==> m[k] == n[k]
    ensures m == n
  {
  }

  /** Two consistent tables with the same ids record the same index for a
      shared key. */
  lemma SameIds<V>(a: Table<V>, b: Table<V>, k: Uuid)
    requires TableInv(a) && TableInv(b) && Distinct(a.ids) && a.ids == b.ids
    requires k in a.sessions && k in b.sessions
    ensures a.sessions[k].index == b.sessions[k].index
  {
    assert a.ids[a.sessions[k].index] == k == a.ids[b.sessions[k].index];
  }

  /** Two surviving sessions keep their relative order in `ids`. */
  lemma SweptKeepsOrder<V>(t: Table<V>, t': Table<V>, now: int, a: Uuid, b: Uuid)
    requires TableInv(t) && Swept(t, t', now)
    requires a in t'.sessions && b in t'.sessions
    ensures t.sessions[a].index < t.sessions[b].index <==> t'.sessions[a].index < t'.sessions[b].index
  {
    FilteredOrder(t, t', a, b);
  }

  /** `u` is consistent and its ids are those of the consistent `t` filtered
      by `u`'s keys. */
  ghost predicate Filtered<V>(t: Table<V>, u: Table<V>) {
    TableInv(t) && TableInv(u) && u.ids == Keep(t.ids, u.sessions.Keys)
  }

  /** A consistent table whose ids are a filter of another's lists any two
      of its keys in the other's order. */
  lemma FilteredOrder<V>(t: Table<V>, u: Table<V>, a: Uuid, b: Uuid)
    requires Filtered(t, u)
    requires a in u.sessions && b in u.sessions
    ensures a in t.sessions && b in t.sessions
    ensures t.sessions[a].index < t.sessions[b].index <==> u.sessions[a].index < u.sessions[b].index
  {
    if u.sessions[a].index < u.sessions[b].index {
      FilteredBefore(t, u, a, b);
    } else if u.sessions[b].index < u.sessions[a].index {
      FilteredBefore(t, u, b, a);
    } else {
      assert u.ids[u.sessions[a].index] == a == b;
    }
  }

  lemma FilteredBefore<V>(t: Table<V>, u: Table<V>, a: Uuid, b: Uuid)
    requires Filtered(t, u)
    requires a in u.sessions && b in u.sessions && u.sessions[a].index < u.sessions[b].index
    ensures a in t.sessions && b in t.sessions && t.sessions[a].index < t.sessions[b].index
  {
    var i', j' := KeepOrder(t.ids, u.sessions.Keys, u.sessions[a].index, u.sessions[b].index);
    assert t.ids[i'] == a && t.ids[j'] == b;
  }

  /** A session touched at `now` with a non-negative lifetime survives a
      sweep at `now`, with its value bag intact. */
  lemma TouchedSurvivesSweep<V>(t: Table<V>, key: Uuid, now: int, t': Table<V>)
    requires TableInv(t) && key in t.sessions && t.sessions[key].maxage >= 0
    requires Swept(Touched(t, key, now), t', now)
    ensures key in t'.sessions
    ensures t'.sessions[key].data == t.sessions[key].data
  {
    assert Touched(t, key, now).sessions[key].modified == now;
  }

  // ----------------------------------------------------------------------
  // The commands of the session server.

  datatype Cmd = Create | Activate | Deactivate | Touch | Timecheck | Exit

  datatype Command = Command(cmd: Cmd, key: Uuid, maxage: Duration)

  /** The store: the session table, owned by the session server, plus the sweep period. */
  class Store<V> {
    var sessions: map<Uuid, Session<V>>
    var ids: seq<Uuid>
    var index: int
    var period: Duration
    /** The uuid library's `Variant() == uuid.Invalid` test. */
    const poorlyFormed: Uuid -> bool

    ghost function Snapshot(): Table<V>
      reads this
    {
      Table(sessions, ids, index)
    }

    ghost predicate Valid()
      reads this
    {
      Owned(Snapshot(), this)
    }

    /** `Init`, without the server goroutine and the sweep timer. */
    constructor Init(poorlyFormed: Uuid -> bool)
      ensures Valid()
      ensures Snapshot() == Table(map[], [], 0)
      ensures period == DefaultPeriod * Minute
      ensures this.poorlyFormed == poorlyFormed
    {
      sessions := map[];
      ids := [];
      index := 0;
      period := DefaultPeriod * Minute;
      this.poorlyFormed := poorlyFormed;
    }

    /** `command.create`: a free id gets a new active session at the end of
        `ids`; a taken id gets the zero Session and nothing changes. */
    method CmdCreate(key: Uuid, maxage: Duration, now: int) returns (s: Session<V>)
      requires Valid()
      modifies this`sessions, this`ids, this`index
      ensures key in old(sessions) ==> s == Zero() && Snapshot() == old(Snapshot())
      ensures key !in old(sessions) ==>
        s == NewSession(key, maxage, period, now, old(index), this) &&
        Snapshot() == Created(old(Snapshot()), s)
      ensures Valid()
    {
      if key in sessions {
        return Zero();
      }
      s := Session(key, map[], now, now, index, this, maxage, true);
      if maxage <= 0 {
        s := s.(maxage := DivTrunc(period, Divisor));
      }
      CreatedOwned(Snapshot(), s, this);
      sessions := sessions[key := s];
      ids := ids + [key];
      index := index + 1;
    }

    /** `command.retrieve`: a copy of the entry with the requested lifetime;
        the table itself is only read. */
    method CmdRetrieve(key: Uuid, maxage: Duration) returns (s: Session<V>)
      requires Valid()
      ensures key in sessions ==> s.active && s.id == key && s == sessions[key].(maxage := maxage)
      ensures key !in sessions ==> s == Zero()
    {
      if key in sessions {
        s := sessions[key];
        s := s.(maxage := maxage);
        return s;
      }
      return Zero();
    }

    /** `command.touch` (and `Store.touch`, which only sends it): refresh the
        entry and return it, or the zero Session when there is none. */
    method CmdTouch(key: Uuid, now: int) returns (s: Session<V>)
      requires Valid()
      modifies this`sessions
      ensures Snapshot() == Touched(old(Snapshot()), key, now)
      ensures Valid()
      ensures key in old(sessions) ==> s == sessions[key] && s.active && s.id == key && s.sto == this
      ensures key !in old(sessions) ==> s == Zero()
    {
      TouchedInv(Snapshot(), key, now, this);
      if key in sessions {
        s := sessions[key].(modified := now);
        sessions := sessions[key := s];
      } else {
        s := Zero();
      }
    }

    /** `Store.destroy`: remove `key` from the table, compacting `ids`
        and renumbering the entries after it; an absent key changes nothing. */
    method DestroyEntry(key: Uuid)
      requires Valid()
      modifies this`sessions, this`ids, this`index
      ensures Snapshot() == Destroyed(old(Snapshot()), key)
      ensures Valid()
    {
      if key !in sessions {
        return;
      }
      ghost var t := Snapshot();
      var p := sessions[key].index;
      var m := Renumber(sessions, ids, p);
      var compacted := ids[..p] + ids[p + 1..];
      var rest := m - {key};
      DestroyedFrom(t, key, this, rest, compacted);
      sessions, ids, index := rest, compacted, index - 1;
    }

    /** `command.destroy`: destroy the entry if there is one. */
    method CmdDestroy(key: Uuid)
      requires Valid()
      modifies this`sessions, this`ids, this`index
      ensures Valid()
      ensures Snapshot() == Destroyed(old(Snapshot()), key)
      ensures key !in sessions
    {
      if key in sessions {
        DestroyEntry(key);
      }
    }

    /** `command.timeout`: visit every key present at the start, in any
        order, and destroy the session if it has been idle for longer than
        its lifetime. */
    method CmdTimeout(now: int)
      requires Valid()
      modifies this`sessions, this`ids, this`index
      ensures Valid()
      ensures Swept(old(Snapshot()), Snapshot(), now)
    {
      ghost var t := Snapshot();
      SweepStart(t, now);
      var todo := sessions.Keys;
      while todo != {}
        invariant Valid()
        invariant SweepProgress(t, Snapshot(), todo, now)
        decreases todo
      {
        var key :| key in todo;
        SweepVisit(t, Snapshot(), todo, key, now);
        todo := todo - {key};
        var s := sessions[key];
        if now - s.modified > s.maxage {
          DestroyEntry(key);
        }
      }
    }

    /** `sessionServer`, one iteration: serve command `c`. An unknown command
        (here `Exit`, which the server does not handle) is fatal: the server
        halts without a reply. */
    method Serve(c: Command, now: int) returns (reply: Session<V>, halted: bool)
      requires Valid()
      modifies this`sessions, this`ids, this`index
      ensures Valid()
      ensures halted <==> c.cmd.Exit?
      ensures c.cmd.Create? ==>
        if c.key in old(sessions) then reply == Zero() && Snapshot() == old(Snapshot())
        else reply == NewSession(c.key, c.maxage, old(period), now, old(index), this) && Snapshot() == Created(old(Snapshot()), reply)
      ensures c.cmd.Activate? ==>
        Snapshot() == old(Snapshot()) &&
        reply == if c.key in sessions then sessions[c.key].(maxage := c.maxage) else Zero()
      ensures c.cmd.Deactivate? ==> reply == Zero() && Snapshot() == Destroyed(old(Snapshot()), c.key)
      ensures c.cmd.Touch? ==>
        Snapshot() == Touched(old(Snapshot()), c.key, now) &&
        reply == if c.key in sessions then sessions[c.key] else Zero()
      ensures c.cmd.Timecheck? ==> reply == Zero() && Swept(old(Snapshot()), Snapshot(), now)
      ensures c.cmd.Exit? ==> Snapshot() == old(Snapshot())
    {
      halted := false;
      match c.cmd
      case Create =>
        reply := CmdCreate(c.key, c.maxage, now);
      case Activate =>
        reply := CmdRetrieve(c.key, c.maxage);
      case Deactivate =>
        CmdDestroy(c.key);
        reply := Zero();
      case Touch =>
        reply := CmdTouch(c.key, now);
      case Timecheck =>
        CmdTimeout(now);
        reply := Zero();
      case Exit =>
        reply := Zero();
        halted := true;
    }

    /** `Store.Create`: a poorly formed id is refused before any command; a
        taken id is reported as ErrNoSession; otherwise the new session. */
    method Create(sid: Uuid, maxage: Duration, now: int) returns (se: Session<V>, err: Option<Error>)
      requires Valid()
      modifies this`sessions, this`ids, this`index
      ensures Valid()
      ensures poorlyFormed(sid) ==> se == Zero() && err == Some(ErrPoorForm) && Snapshot() == old(Snapshot())
      ensures !poorlyFormed(sid) && sid in old(sessions) ==>
        se == Zero() && err == Some(ErrNoSession) && Snapshot() == old(Snapshot())
      ensures !poorlyFormed(sid) && sid !in old(sessions) ==>
        err == None && se.Valid() &&
        se == NewSession(sid, SecondsToDuration(maxage), old(period), now, old(index), this) &&
        Snapshot() == Created(old(Snapshot()), se)
    {
      se := Zero();
      if poorlyFormed(sid) {
        return se, Some(ErrPoorForm);
      }
      var sess := CmdCreate(sid, SecondsToDuration(maxage), now);
      if !sess.active {
        return se, Some(ErrNoSession);
      }
      se := sess;
      err := None;
    }

    /** `Store.Restore`: sends a touch, so a restored session is refreshed. */
    method Restore(sid: Uuid, now: int) returns (se: Session<V>, err: Option<Error>)
      requires Valid()
      modifies this`sessions
      ensures Valid()
      ensures poorlyFormed(sid) ==> se == Zero() && err == Some(ErrPoorForm) && Snapshot() == old(Snapshot())
      ensures !poorlyFormed(sid) && sid !in old(sessions) ==>
        se == Zero() && err == Some(ErrNoSession) && Snapshot() == old(Snapshot())
      ensures !poorlyFormed(sid) && sid in old(sessions) ==>
        err == None && se.Valid() && sid in sessions && se == sessions[sid] &&
        Snapshot() == Touched(old(Snapshot()), sid, now)
    {
      se := Zero();
      if poorlyFormed(sid) {
        return se, Some(ErrPoorForm);
      }
      var sess := CmdTouch(sid, now);
      if !sess.active {
        return se, Some(ErrNoSession);
      }
      se := sess;
      err := None;
    }

    /** `Store.Destroy`: a poorly formed id is reported as ErrNoSession;
        any other id is destroyed if present, without error. */
    method Destroy(sid: Uuid) returns (err: Option<Error>)
      requires Valid()
      modifies this`sessions, this`ids, this`index
      ensures Valid()
      ensures poorlyFormed(sid) ==> err == Some(ErrNoSession) && Snapshot() == old(Snapshot())
      ensures !poorlyFormed(sid) ==> err == None && Snapshot() == Destroyed(old(Snapshot()), sid) && sid !in sessions
    {
      if poorlyFormed(sid) {
        return Some(ErrNoSession);
      }
      CmdDestroy(sid);
      err := None;
    }

    /** `Store.Period`: set the sweep period, returning the previous one. */
    method Period(t: Duration) returns (previous: Duration)
      requires Valid()
      modifies this`period
      ensures Valid() && Snapshot() == old(Snapshot())
      ensures previous == old(period) && period == t
    {
      previous := period;
      period := t;
    }
  }
}
