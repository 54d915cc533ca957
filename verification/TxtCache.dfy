/** The bounded DNS TXT cache with its side table of raw DMARC texts. */
module TxtCache {
  import opened Common

  const MAX_TTL: int := 3600
  const MAX_ENTRIES: nat := 4096

  /** A parsed TXT record; nothing depends on what is inside. */
  type Txt = string

  /** A cached record with its expiry; pinned records have none. */
  datatype Entry = Entry(value: Txt, until: Option<int>)

  datatype Inner = Inner(entries: map<string, Entry>, raw: map<string, string>)

  const EMPTY := Inner(map[], map[])

  // ---------------------------------------------------------------- what an eviction may do

  predicate Lives(e: Entry, now: int) {
    e.until.None? || e.until.value > now
  }

  /** The entries left after dropping the expired ones, but never the kept key. */
  function Unexpired(s: Inner, keep: string, now: int): map<string, Entry> {
    map k | k in s.entries && (k == keep || Lives(s.entries[k], now)) :: s.entries[k]
  }

  /** Giving up `k` while keeping `rest` respects the order of eviction: the earliest
      expiry goes first, and a pinned record only when nothing else can. */
  predicate GoesBefore(k: string, e: Entry, rest: map<string, Entry>, keep: string) {
    k != keep &&
    forall j :: j in rest && j != keep && rest[j].until.Some? ==>
      e.until.Some? && e.until.value <= rest[j].until.value
  }

  /** `rest` keeps entries of `live`, giving the others up in eviction order. */
  predicate InOrder(live: map<string, Entry>, rest: map<string, Entry>, keep: string) {
    && (forall k :: k in rest ==> k in live && rest[k] == live[k])
    && (forall k :: k in live && k !in rest ==> GoesBefore(k, live[k], rest, keep))
  }

  function Beside(raw: map<string, string>, entries: map<string, Entry>): map<string, string> {
    map k | k in raw && k in entries :: raw[k]
  }

  /** `t` is what capacity enforcement may leave of `s`. */
  predicate Evicted(s: Inner, t: Inner, keep: string, now: int) {
    var live := Unexpired(s, keep, now);
    && InOrder(live, t.entries, keep)
    && t.raw == Beside(s.raw, t.entries)
    && (if |live| < MAX_ENTRIES then t.entries == live else |t.entries| == MAX_ENTRIES - 1)
  }

  // ---------------------------------------------------------------- operations

  datatype Op =
    | Store(key: string, value: Txt, rawText: Option<string>, now: int)
    | StoreIfAbsent(key: string, value: Txt, now: int)
    | Insert(key: string, value: Txt, validUntil: int, now: int)
    | Get(key: string, now: int)
    | Remove(key: string)

  function Drop(s: Inner, k: string): Inner {
    Inner(s.entries - {k}, s.raw - {k})
  }

  /** The operation writes an entry for its key. */
  predicate Writes(s: Inner, op: Op) {
    op.Store? || op.Insert? || (op.StoreIfAbsent? && op.key !in s.entries)
  }

  /** The entry a writing operation puts under its key. */
  function EntryOf(op: Op): Entry
    requires op.Store? || op.Insert? || op.StoreIfAbsent?
  {
    Entry(op.value, if op.Insert? then Some(Min(op.validUntil, op.now + MAX_TTL)) else None)
  }

  function RawOf(op: Op): Option<string> {
    if op.Store? then op.rawText else None
  }

  /** The write itself, after capacity enforcement. */
  function Written(u: Inner, op: Op): Inner
    requires op.Store? || op.Insert? || op.StoreIfAbsent?
  {
    Inner(u.entries[op.key := EntryOf(op)],
          if op.StoreIfAbsent? then u.raw
          else if RawOf(op).Some? then u.raw[op.key := RawOf(op).value] else u.raw - {op.key})
  }

  /** The state an operation may lead to. */
  ghost predicate Next(s: Inner, op: Op, t: Inner) {
    if Writes(s, op) then exists u :: Evicted(s, u, op.key, op.now) && t == Written(u, op)
    else t == Unwritten(s, op)
  }

  function Unwritten(s: Inner, op: Op): Inner {
    match op
    case Get(k, now) => if k in s.entries && !Lives(s.entries[k], now) then Drop(s, k) else s
    case Remove(k) => if k in s.entries then Drop(s, k) else s
    case _ => s
  }

  /** What a lookup answers. */
  function Lookup(s: Inner, k: string, now: int): Option<Txt> {
    if k in s.entries && Lives(s.entries[k], now) then Some(s.entries[k].value) else None
  }

  // ---------------------------------------------------------------- the cache object

  class Cache {
    var entries: map<string, Entry>
    var raw: map<string, string>

    ghost function State(): Inner
      reads this
    {
      Inner(entries, raw)
    }

    constructor ()
      ensures State() == EMPTY
    {
      entries, raw := map[], map[];
    }

    method EnforceCapacity(keep: string, now: int)
      modifies this
      ensures Evicted(old(State()), State(), keep, now)
    {
      ghost var before := State();
      entries := map k | k in entries && (k == keep || Lives(entries[k], now)) :: entries[k];
      ghost var live := entries;
      raw := map k | k in raw && k in entries :: raw[k];
      StartsInOrder(before, keep, now);
      hide GoesBefore, Lives, Unexpired, InOrder, Beside;
      while |entries| > MAX_ENTRIES - 1
        invariant live == Unexpired(before, keep, now) && InOrder(live, entries, keep)
        invariant raw == Beside(before.raw, entries)
        invariant if |live| < MAX_ENTRIES then entries == live else |entries| >= MAX_ENTRIES - 1
        decreases |entries|
      {
        VictimExists(entries, keep);
        var victim :| victim in entries && GoesBefore(victim, entries[victim], entries, keep);
        VictimGoes(live, entries, before.raw, keep, victim);
        entries := entries - {victim};
        raw := raw - {victim};
      }
    }

    method StoreRecord(key: string, value: Txt, rawText: Option<string>, now: int)
      modifies this
      ensures Next(old(State()), Op.Store(key, value, rawText, now), State())
      ensures key in entries && entries[key] == Entry(value, None) && |entries| <= 4096
      ensures if rawText.Some? then key in raw && raw[key] == rawText.value else key !in raw
    {
      EnforceCapacity(key, now);
      ghost var u := State();
      entries := entries[key := Entry(value, None)];
      if rawText.Some? {
        raw := raw[key := rawText.value];
      } else {
        raw := raw - {key};
      }
      assert Evicted(old(State()), u, key, now);
    }

    method StoreRecordIfAbsent(key: string, value: Txt, now: int)
      modifies this
      ensures Next(old(State()), Op.StoreIfAbsent(key, value, now), State())
      ensures key in entries
      ensures if key in old(entries) then unchanged(this) else entries[key] == Entry(value, None) && |entries| <= 4096
    {
      if key in entries {
        return;
      }
      EnforceCapacity(key, now);
      ghost var u := State();
      entries := entries[key := Entry(value, None)];
      assert Evicted(old(State()), u, key, now);
    }

    method InsertRecord(key: string, value: Txt, validUntil: int, now: int)
      modifies this
      ensures Next(old(State()), Op.Insert(key, value, validUntil, now), State())
      ensures key in entries && entries[key].value == value && key !in raw && |entries| <= 4096
      ensures entries[key].until.Some? && entries[key].until.value in {validUntil, now + 3600}
      ensures entries[key].until.value <= validUntil && entries[key].until.value <= now + 3600
    {
      EnforceCapacity(key, now);
      ghost var u := State();
      entries := entries[key := Entry(value, Some(Min(validUntil, now + MAX_TTL)))];
      raw := raw - {key};
      assert Evicted(old(State()), u, key, now);
    }

    method GetRecord(key: string, now: int) returns (r: Option<Txt>)
      modifies this
      ensures Next(old(State()), Op.Get(key, now), State())
      ensures r == Lookup(old(State()), key, now)
      ensures r == if key in old(entries) && (old(entries)[key].until.Some? ==> now < old(entries)[key].until.value)
                   then Some(old(entries)[key].value) else None
      ensures if r.None? then entries == old(entries) - {key} && (key in old(entries) ==> raw == old(raw) - {key})
              else unchanged(this)
    {
      if key !in entries {
        return None;
      }
      if entries[key].until.Some? && entries[key].until.value <= now {
        entries := entries - {key};
        raw := raw - {key};
        return None;
      }
      r := Some(entries[key].value);
    }

    method RemoveRecord(key: string) returns (r: Option<Txt>)
      modifies this
      ensures Next(old(State()), Op.Remove(key), State())
      ensures r == if key in old(entries) then Some(old(entries)[key].value) else None
    {
      if key in entries {
        r := Some(entries[key].value);
        entries := entries - {key};
        raw := raw - {key};
      } else {
        r := None;
      }
    }

    /** The nearest raw DMARC text along the candidate names, most specific first. */
    method RawRecord(candidates: seq<string>) returns (r: Option<string>)
      ensures r.None? ==> forall i :: 0 <= i < |candidates| ==> candidates[i] !in raw || candidates[i] !in entries
      ensures r.Some? ==>
                exists i :: (0 <= i < |candidates|
                             && candidates[i] in raw && candidates[i] in entries && raw[candidates[i]] == r.value
                             && forall j :: 0 <= j < i ==> candidates[j] !in raw || candidates[j] !in entries)
    {
      for i := 0 to |candidates|
        invariant forall j :: 0 <= j < i ==> candidates[j] !in raw || candidates[j] !in entries
      {
        if candidates[i] in raw && candidates[i] in entries {
          return Some(raw[candidates[i]]);
        }
      }
      r := None;
    }
  }

  // ---------------------------------------------------------------- a victim always exists

  /** Among the TTL-bound keys there is one that expires first. */
  lemma {:induction false} EarliestExists(entries: map<string, Entry>, keys: set<string>) returns (k: string)
    requires keys != {} && forall j :: j in keys ==> j in entries && entries[j].until.Some?
    ensures k in keys && forall j :: j in keys ==> entries[k].until.value <= entries[j].until.value
    decreases |keys|
  {
    k :| k in keys;
    var rest := keys - {k};
    if rest != {} {
      var m := EarliestExists(entries, rest);
      k := if entries[k].until.value <= entries[m].until.value then k else m;
    }
    forall j | j in keys ensures entries[k].until.value <= entries[j].until.value {
      if j !in rest { assert j in keys - rest; }
    }
  }

  lemma VictimExists(entries: map<string, Entry>, keep: string)
    requires |entries| >= 2
    ensures exists k :: k in entries && GoesBefore(k, entries[k], entries, keep)
  {
    var others := entries.Keys - {keep};
    assert |entries.Keys| == |entries|;
    assert |others| >= |entries.Keys| - 1;
    var bound := set k | k in others && entries[k].until.Some?;
    if bound == {} {
      var k :| k in others;
      assert forall j :: j in others && entries[j].until.Some? ==> j in bound;
      assert GoesBefore(k, entries[k], entries, keep);
    } else {
      var k := EarliestExists(entries, bound);
      assert GoesBefore(k, entries[k], entries, keep);
    }
  }

  lemma StartsInOrder(s: Inner, keep: string, now: int)
    ensures var live := Unexpired(s, keep, now);
            && InOrder(live, live, keep)
            && live == (map k | k in s.entries && (k == keep || Lives(s.entries[k], now)) :: s.entries[k])
            && Beside(s.raw, live) == (map k | k in s.raw && k in live :: s.raw[k])
  {}

  lemma VictimGoes(live: map<string, Entry>, rest: map<string, Entry>, raw: map<string, string>, keep: string,
                   victim: string)
    requires InOrder(live, rest, keep) && victim in rest && GoesBefore(victim, rest[victim], rest, keep)
    ensures InOrder(live, rest - {victim}, keep)
    ensures |rest - {victim}| == |rest| - 1
    ensures Beside(raw, rest) - {victim} == Beside(raw, rest - {victim})
  {
    assert (rest - {victim}).Keys == rest.Keys - {victim};
  }

  // ---------------------------------------------------------------- every run

  /** A run: the operations and the states before, between and after them. */
  ghost predicate IsRun(states: seq<Inner>, ops: seq<Op>) {
    && |states| == |ops| + 1 && states[0] == EMPTY
    && forall i :: 0 <= i < |ops| ==> Next(states[i], ops[i], states[i + 1])
  }

  /** The `i`-th operation wrote what the cache holds for `k` after `n` operations. */
  predicate WroteLast(states: seq<Inner>, ops: seq<Op>, n: nat, k: string, i: int)
    requires n < |states| == |ops| + 1
  {
    && 0 <= i < n && Writes(states[i], ops[i]) && ops[i].key == k
    && (forall j :: i < j < n && ops[j].key == k ==> !Writes(states[j], ops[j]))
    && k in states[n].entries && states[n].entries[k] == EntryOf(ops[i])
    && (k in states[n].raw <==> RawOf(ops[i]).Some?)
    && (k in states[n].raw ==> states[n].raw[k] == RawOf(ops[i]).value)
  }

  /** After every number of operations: the bound holds, raw texts stand only beside entries,
      and each entry and raw text is exactly what the last write to its key put there. */
  ghost predicate Faithful(states: seq<Inner>, ops: seq<Op>, n: nat)
    requires n < |states| == |ops| + 1
  {
    && Bounded(states[n])
    && forall k :: k in states[n].entries ==> exists i :: WroteLast(states, ops, n, k, i)
  }

  /** Two states agree on a key. */
  predicate Agree(s: Inner, t: Inner, k: string) {
    && k in s.entries && k in t.entries && s.entries[k] == t.entries[k]
    && (k in s.raw <==> k in t.raw) && (k in s.raw ==> s.raw[k] == t.raw[k])
  }

  predicate Bounded(s: Inner) {
    |s.entries| <= MAX_ENTRIES && s.raw.Keys <= s.entries.Keys
  }

  /** The written key holds what was written; every other surviving key is unchanged. */
  predicate Carried(s: Inner, op: Op, t: Inner) {
    && (forall k :: k in t.entries && !(Writes(s, op) && op.key == k) ==> Agree(s, t, k))
    && (Writes(s, op) ==> Holds(t, op))
  }

  predicate Holds(t: Inner, op: Op)
    requires op.Store? || op.Insert? || op.StoreIfAbsent?
  {
    && op.key in t.entries && t.entries[op.key] == EntryOf(op)
    && (op.key in t.raw <==> RawOf(op).Some?) && (op.key in t.raw ==> t.raw[op.key] == RawOf(op).value)
  }

  /** One operation keeps the bounds and carries everything else over. */
  lemma StepFaithful(s: Inner, op: Op, t: Inner)
    requires Next(s, op, t) && Bounded(s)
    ensures Bounded(t) && Carried(s, op, t)
  {
    hide Evicted, Written, Unwritten, Bounded, Carried;
    if Writes(s, op) {
      var u :| Evicted(s, u, op.key, op.now) && t == Written(u, op);
      WriteFaithful(s, u, op);
    } else {
      UnwrittenFaithful(s, op);
    }
  }

  lemma UnwrittenFaithful(s: Inner, op: Op)
    requires Bounded(s) && !Writes(s, op)
    ensures Bounded(Unwritten(s, op)) && Carried(s, op, Unwritten(s, op))
  {
    hide Lives;
    var t := Unwritten(s, op);
    assert t == s || (t == Drop(s, op.key) && t.entries.Keys == s.entries.Keys - {op.key});
  }

  lemma WriteFaithful(s: Inner, u: Inner, op: Op)
    requires Writes(s, op) && Evicted(s, u, op.key, op.now)
    ensures Bounded(Written(u, op)) && Carried(s, op, Written(u, op))
  {
    EvictedFaithful(s, u, op.key, op.now);
    assert op.StoreIfAbsent? ==> op.key !in u.entries;
    hide Evicted, Written, EntryOf, RawOf;
    WrittenFaithful(u, op);
    var t := Written(u, op);
    forall k | k in t.entries && op.key != k ensures Agree(s, t, k) {
      WrittenAgrees(u, op, k);
      assert Agree(s, u, k);
    }
  }

  lemma EvictedFaithful(s: Inner, u: Inner, keep: string, now: int)
    requires Evicted(s, u, keep, now)
    ensures |u.entries| < MAX_ENTRIES && u.raw.Keys <= u.entries.Keys
    ensures u.entries.Keys <= s.entries.Keys && (keep in s.entries ==> keep in u.entries)
    ensures forall k :: k in u.entries ==> Agree(s, u, k)
  {
    hide Lives;
  }

  lemma WrittenFaithful(u: Inner, op: Op)
    requires op.Store? || op.Insert? || op.StoreIfAbsent?
    requires |u.entries| < MAX_ENTRIES && u.raw.Keys <= u.entries.Keys
    requires op.StoreIfAbsent? ==> op.key !in u.entries
    ensures var t := Written(u, op);
            Bounded(t) && Holds(t, op)
  {
    WrittenKeys(u, op);
    WrittenRaw(u, op);
    WrittenHolds(u, op);
    hide Written, Holds;
  }

  lemma WrittenRaw(u: Inner, op: Op)
    requires op.Store? || op.Insert? || op.StoreIfAbsent?
    ensures Written(u, op).raw.Keys <= u.raw.Keys + {op.key}
  {
    hide EntryOf, RawOf;
  }

  lemma WrittenHolds(u: Inner, op: Op)
    requires op.Store? || op.Insert? || op.StoreIfAbsent?
    requires u.raw.Keys <= u.entries.Keys && (op.StoreIfAbsent? ==> op.key !in u.entries)
    ensures Holds(Written(u, op), op)
  {
    NoRaw(op);
    hide EntryOf, RawOf;
  }

  lemma WrittenAgrees(u: Inner, op: Op, k: string)
    requires op.Store? || op.Insert? || op.StoreIfAbsent?
    requires op.key != k && k in Written(u, op).entries
    ensures Agree(u, Written(u, op), k)
  {
    hide EntryOf, RawOf;
  }

  lemma NoRaw(op: Op)
    ensures !op.Store? ==> RawOf(op).None?
  {}

  lemma {:induction false} RunFaithful(states: seq<Inner>, ops: seq<Op>, n: nat)
    requires IsRun(states, ops) && n < |states|
    ensures Faithful(states, ops, n)
  {
    if n > 0 {
      RunFaithful(states, ops, n - 1);
      var s, op, t := states[n - 1], ops[n - 1], states[n];
      assert Next(s, op, t);
      StepFaithful(s, op, t);
      hide Next, Writes, EntryOf, RawOf, Bounded;
      forall k | k in t.entries ensures exists i :: WroteLast(states, ops, n, k, i) {
        if Writes(s, op) && op.key == k {
          assert WroteLast(states, ops, n, k, n - 1);
        } else {
          assert Agree(s, t, k);
          var i :| WroteLast(states, ops, n - 1, k, i);
          StillWroteLast(states, ops, n, k, i);
        }
      }
    }
  }

  lemma StillWroteLast(states: seq<Inner>, ops: seq<Op>, n: nat, k: string, i: int)
    requires 0 < n < |states| == |ops| + 1 && WroteLast(states, ops, n - 1, k, i)
    requires Agree(states[n - 1], states[n], k) && !(Writes(states[n - 1], ops[n - 1]) && ops[n - 1].key == k)
    ensures WroteLast(states, ops, n, k, i)
  {
    hide Writes, EntryOf, RawOf;
  }

  /** What a lookup answers in any run: what the last write to the key stored, as long as the
      cache still holds it, and a value inserted with an expiry exactly until the earlier of
      that and 3,600 seconds after its insertion. */
  lemma LookupAnswersExactly(states: seq<Inner>, ops: seq<Op>, n: nat, k: string, now: int)
    requires IsRun(states, ops) && n < |states| && k in states[n].entries
    ensures exists i :: (WroteLast(states, ops, n, k, i) &&
              Lookup(states[n], k, now) ==
                if ops[i].Insert? && (now >= ops[i].validUntil || now >= ops[i].now + 3600) then None
                else Some(ops[i].value))
  {
    RunFaithful(states, ops, n);
    var i :| WroteLast(states, ops, n, k, i);
    hide Next, Faithful;
  }

  /** So what is written is answered at once, and an inserted value only before its expiry. */
  lemma WrittenIsAnswered(s: Inner, op: Op, t: Inner, now: int)
    requires Next(s, op, t) && Writes(s, op)
    ensures Lookup(t, op.key, now) ==
            if op.Insert? && (now >= op.validUntil || now >= op.now + 3600) then None else Some(op.value)
    ensures op.Store? ==> if op.rawText.Some? then op.key in t.raw && t.raw[op.key] == op.rawText.value
                          else op.key !in t.raw
    ensures op.Insert? ==> op.key !in t.raw
  {
    var u :| Evicted(s, u, op.key, op.now) && t == Written(u, op);
    hide Evicted, Next;
  }

  /** A lookup past the expiry drops the entry with its raw text, any other changes nothing. */
  lemma LookupDropsExpired(s: Inner, k: string, now: int, t: Inner)
    requires Next(s, Get(k, now), t)
    ensures if k in s.entries && s.entries[k].until.Some? && s.entries[k].until.value <= now
            then k !in t.entries && k !in t.raw && forall j :: j != k ==> (j in s.entries <==> j in t.entries)
            else t == s
  {}

  /** What leaves the cache without being removed: expired entries, all of them with every
      write but the written key's; and, to make room, live ones in the order of their expiry, the
      pinned last. */
  lemma LeavesInOrder(s: Inner, op: Op, t: Inner, k: string)
    requires Next(s, op, t) && Writes(s, op) && k in s.entries && k != op.key
    ensures s.entries[k].until.Some? && s.entries[k].until.value <= op.now ==> k !in t.entries
    ensures k !in t.entries && (s.entries[k].until.Some? ==> s.entries[k].until.value > op.now) ==>
              && 4095 <= |t.entries| <= 4096
              && forall j :: j in t.entries && j != op.key && t.entries[j].until.Some? ==>
                   s.entries[k].until.Some? && s.entries[k].until.value <= t.entries[j].until.value
  {
    var u :| Evicted(s, u, op.key, op.now) && t == Written(u, op);
    hide Written, Next;
    WrittenKeys(u, op);
    EvictedLive(s, u, op.key, op.now, k);
    hide Evicted;
  }

  lemma EvictedLive(s: Inner, u: Inner, keep: string, now: int, k: string)
    requires Evicted(s, u, keep, now) && k in s.entries && k != keep
    ensures !Lives(s.entries[k], now) ==> k !in u.entries
    ensures Lives(s.entries[k], now) && k !in u.entries ==>
              && |u.entries| == MAX_ENTRIES - 1
              && forall j :: j in u.entries && j != keep && u.entries[j].until.Some? ==>
                   s.entries[k].until.Some? && s.entries[k].until.value <= u.entries[j].until.value
  {
    var live := Unexpired(s, keep, now);
    if Lives(s.entries[k], now) && k !in u.entries {
      assert k in live && live[k] == s.entries[k];
      assert GoesBefore(k, live[k], u.entries, keep);
    }
  }

  /** A lookup in any run answers only what the last write to the key stored, and a value
      inserted with an expiry never at or past `min(validUntil, insertion + MAX_TTL)`. */
  lemma LookupIsFresh(states: seq<Inner>, ops: seq<Op>, n: nat, k: string, now: int)
    requires IsRun(states, ops) && n < |states| && Lookup(states[n], k, now).Some?
    ensures exists i :: (WroteLast(states, ops, n, k, i)
              && Lookup(states[n], k, now).value == ops[i].value
              && (ops[i].Insert? ==> now < ops[i].validUntil && now < ops[i].now + MAX_TTL))
  {
    RunFaithful(states, ops, n);
    var i :| WroteLast(states, ops, n, k, i);
  }

  /** A raw DMARC text is only ever held beside the pinned record it was stored with. */
  lemma RawBesideItsRecord(states: seq<Inner>, ops: seq<Op>, n: nat, k: string)
    requires IsRun(states, ops) && n < |states| && k in states[n].raw
    ensures k in states[n].entries && states[n].entries[k].until.None?
    ensures exists i :: 0 <= i < n && ops[i].Store? && ops[i].key == k
              && ops[i].value == states[n].entries[k].value && ops[i].rawText == Some(states[n].raw[k])
  {
    RunFaithful(states, ops, n);
    hide Next, IsRun;
    assert k in states[n].entries;
    var i :| WroteLast(states, ops, n, k, i);
    assert RawOf(ops[i]).Some?;
  }

  /** A pinned record other than the one being written leaves the cache only by removal, or
      when no TTL-bound record but that one is left. */
  lemma PinnedGoesLast(s: Inner, op: Op, t: Inner, k: string)
    requires Next(s, op, t)
    requires k in s.entries && s.entries[k].until.None? && k !in t.entries
    ensures op == Remove(k) ||
            (Writes(s, op) && |t.entries| == (if op.key in s.entries then MAX_ENTRIES - 1 else MAX_ENTRIES)
             && forall j :: j in t.entries && j != op.key ==> t.entries[j].until.None?)
  {
    if Writes(s, op) {
      var u :| Evicted(s, u, op.key, op.now) && t == Written(u, op);
      hide Evicted, Written, Next, Lives;
      WrittenKeys(u, op);
      EvictedFaithful(s, u, op.key, op.now);
      EvictedPinned(s, u, op.key, op.now, k);
    } else {
      hide Writes;
      assert t == Unwritten(s, op) && t != s;
    }
  }

  lemma WrittenKeys(u: Inner, op: Op)
    requires op.Store? || op.Insert? || op.StoreIfAbsent?
    ensures var t := Written(u, op);
            && t.entries.Keys == u.entries.Keys + {op.key}
            && |t.entries| == (if op.key in u.entries then |u.entries| else |u.entries| + 1)
            && forall j :: j in u.entries && j != op.key ==> t.entries[j] == u.entries[j]
  {
    hide EntryOf, RawOf;
    assert Written(u, op).entries.Keys == u.entries.Keys + {op.key};
  }

  lemma EvictedPinned(s: Inner, u: Inner, keep: string, now: int, k: string)
    requires Evicted(s, u, keep, now)
    requires k in s.entries && s.entries[k].until.None? && k !in u.entries
    ensures |u.entries| == MAX_ENTRIES - 1
    ensures forall j :: j in u.entries && j != keep ==> u.entries[j].until.None?
  {
    var live := Unexpired(s, keep, now);
    assert k in live && live[k] == s.entries[k];
    assert GoesBefore(k, live[k], u.entries, keep);
  }
}
