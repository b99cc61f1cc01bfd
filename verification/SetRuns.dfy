/** Runs of address sets: to their users, handles that share a set are plain values. */
module SetRuns {
  import opened Values
  import opened AddressSets

  datatype Request =
    | Empty
    | Fork(h: nat)
    | Push(h: nat, a: nat)
    | Merge(h: nat, g: nat)
    | MergeTags(h: nat, g: nat)
    | Free(h: nat)
    | Contains(h: nat, a: nat)
    | Equal(h: nat, g: nat)
    | Size(h: nat)
    | RelocCount(h: nat)

  datatype Answer = Handle(h: nat) | Is(yes: bool) | Number(n: nat) | Done | Refused

  /** The value of each handle. */
  type Plain = map<nat, AddrSet>

  function Named(q: Request): set<nat> {
    match q
    case Empty => {}
    case Merge(h, g) => {h, g}
    case MergeTags(h, g) => {h, g}
    case Equal(h, g) => {h, g}
    case _ => {q.h}
  }

  /** The handles a request names have been given to a user: they are there and are not the one of the empty set. */
  ghost predicate Allowed(handles: set<nat>, q: Request) {
    Named(q) <= handles - {0}
  }

  /** How handles that are plain values answer a request. Requests for handles that are not there are not passed on. */
  ghost predicate Serves(q: Request, r: Answer, s: Plain, s': Plain) {
    if !Allowed(s.Keys, q) then r == Refused && s' == s
    else
      match q
      case Empty => r.Handle? && r.h !in s && s' == s[r.h := EMPTY_SET]
      case Fork(h) => r.Handle? && r.h !in s && s' == s[r.h := s[h]]
      case Push(h, a) => if a == NULL_ADDR then r == Refused && s' == s else r == Done && s' == s[h := Include(s[h], a)]
      case Merge(h, g) => r == Done && s' == s[h := Join(s[h], s[g])]
      case MergeTags(h, g) => r == Done && s' == s[h := AddrSet(s[h].addrs, s[h].tags + s[g].tags)]
      case Free(h) => r == Done && s' == s - {h}
      case Contains(h, a) => s' == s && r == Is(a != NULL_ADDR && a in s[h].addrs)
      case Equal(h, g) => s' == s && r == Is(s[h] == s[g])
      case Size(h) => s' == s && r == Number(|s[h].addrs|)
      case RelocCount(h) => s' == s && r == Number(|set a | a in s[h].addrs && IsReloc(a)|)
  }

  /** The empty set is still there. */
  ghost predicate EmptyKept(s: Plain) {
    0 in s && s[0] == EMPTY_SET
  }

  lemma ServesKeepsEmpty(q: Request, r: Answer, s: Plain, s': Plain)
    requires Serves(q, r, s, s') && EmptyKept(s)
    ensures EmptyKept(s')
  {
  }

  lemma SameHandles(pool: SetPool)
    requires pool.Valid()
    ensures pool.handles.Keys == pool.Contents().Keys
  {
  }

  method Change(pool: SetPool, q: Request) returns (r: Answer)
    requires pool.Valid() && Allowed(pool.handles.Keys, q) && (q.Push? || q.Merge? || q.MergeTags?)
    modifies pool, pool.table
    ensures pool.Valid() && Serves(q, r, old(pool.Contents()), pool.Contents())
  {
    hide SetPool.Valid, SetPool.Contents, Include, Join;
    SameHandles(pool);
    if q.Push? {
      var done := pool.Push(q.h, q.a);
      r := if done then Done else Refused;
    } else if q.Merge? {
      pool.Merge(q.h, q.g);
      r := Done;
    } else {
      pool.MergeTags(q.h, q.g);
      r := Done;
    }
  }

  method Ask(pool: SetPool, q: Request) returns (r: Answer)
    requires pool.Valid() && Allowed(pool.handles.Keys, q) && (q.Contains? || q.Equal? || q.Size? || q.RelocCount?)
    ensures Serves(q, r, pool.Contents(), pool.Contents())
  {
    hide SetPool.Valid, SetPool.Contents;
    SameHandles(pool);
    if q.Contains? {
      var yes := pool.Contains(q.h, q.a);
      r := Is(yes);
    } else if q.Equal? {
      var yes := pool.Equal(q.h, q.g);
      r := Is(yes);
    } else if q.Size? {
      var n := pool.Size(q.h);
      r := Number(n);
    } else {
      var n := pool.RelocCount(q.h);
      r := Number(n);
    }
  }

  method Perform(pool: SetPool, q: Request) returns (r: Answer)
    requires pool.Valid() && EmptyKept(pool.Contents())
    modifies pool, pool.table
    ensures pool.Valid() && Serves(q, r, old(pool.Contents()), pool.Contents())
  {
    hide SetPool.Valid, SetPool.Contents, Include, Join;
    SameHandles(pool);
    if !(Named(q) <= pool.handles.Keys - {0}) {
      r := Refused;
    } else if q.Contains? || q.Equal? || q.Size? || q.RelocCount? {
      r := Ask(pool, q);
    } else if q.Push? || q.Merge? || q.MergeTags? {
      r := Change(pool, q);
    } else if q.Free? {
      pool.Free(q.h);
      r := Done;
    } else {
      var u := pool.Fork(if q.Empty? then 0 else q.h);
      r := Handle(u);
    }
  }

  /**
   Every answer of every interleaving is the one plain values give, and the shared empty set is never modified.
   */
  method Run(size: nat, hash: ((nat, nat)) -> nat, th: TagHash, qs: seq<Request>)
      returns (answers: seq<Answer>, ghost states: seq<Plain>)
    requires size > 0
    ensures |answers| == |qs| && |states| == |qs| + 1 && states[0] == map[0 := EMPTY_SET]
    ensures forall k :: 0 <= k < |qs| ==> Serves(qs[k], answers[k], states[k], states[k + 1])
    ensures forall k :: 0 <= k <= |qs| ==> EmptyKept(states[k])
  {
    hide Serves, SetPool.Valid, SetPool.Contents;
    var pool := new SetPool(size, hash, th);
    answers, states := [], [pool.Contents()];
    for k := 0 to |qs|
      invariant pool.Valid() && fresh(pool) && fresh(pool.table)
      invariant |answers| == k && |states| == k + 1 && states[0] == map[0 := EMPTY_SET] && states[k] == pool.Contents()
      invariant forall j :: 0 <= j < k ==> Serves(qs[j], answers[j], states[j], states[j + 1])
      invariant forall j :: 0 <= j <= k ==> EmptyKept(states[j])
    {
      var r := Perform(pool, qs[k]);
      ServesKeepsEmpty(qs[k], r, states[k], pool.Contents());
      answers, states := answers + [r], states + [pool.Contents()];
    }
  }
}
