/** The NAT2.5 address database as a plain map, and what ageing means for it. */
module Nat25Map {
  const HASH_SIZE: nat := 16       // NAT25_HASH_SIZE
  const AGEING_TIME: int := 300    // NAT25_AGEING_TIME, in seconds like every time here

  type Mac = m: seq<bv8> | |m| == 6 witness [0, 0, 0, 0, 0, 0]
  type Ip = a: seq<bv8> | |a| == 4 witness [0, 0, 0, 0]
  /** A network address record: a type byte followed by the protocol's address. */
  type Addr = a: seq<bv8> | |a| == 17
    witness [0, 0, 0, 0, 0, 0, 0, 0, 0, 0, 0, 0, 0, 0, 0, 0, 0]

  const NO_MAC: Mac := [0, 0, 0, 0, 0, 0]
  const NO_IP: Ip := [0, 0, 0, 0]

  function Xor(a: seq<bv8>, lo: nat, hi: nat): bv8
    requires lo <= hi <= |a|
  {
    if lo == hi then 0 else Xor(a, lo, hi - 1) ^ a[hi - 1]
  }

  /** __nat25_network_hash: which bytes are mixed depends on the address type. */
  function Hash(a: Addr): (h: nat)
    ensures h < HASH_SIZE
  {
    var x :=
      if a[0] == 1 then Xor(a, 7, 11)
      else if a[0] == 2 then Xor(a, 1, 17)
      else if a[0] == 3 then Xor(a, 1, 11)
      else if a[0] == 4 then Xor(a, 1, 4)
      else if a[0] == 5 then Xor(a, 0, 9)
      else Xor(a, 0, 17);
    (x & 15) as nat
  }

  /** __nat25_generate_ipv4_network_addr */
  function Ipv4Addr(ip: Ip): Addr {
    [1, 0, 0, 0, 0, 0, 0] + ip + [0, 0, 0, 0, 0, 0]
  }

  lemma Ipv4Distinct(x: Ip, y: Ip)
    ensures Ipv4Addr(x) == Ipv4Addr(y) <==> x == y
  {
    assert x == Ipv4Addr(x)[7..11] && y == Ipv4Addr(y)[7..11];
  }

  datatype Rec = Rec(mac: Mac, time: int, uses: nat)

  predicate Expired(r: Rec, now: int) {
    r.time <= now - AGEING_TIME
  }

  /** A pass drops an expired record on its last use and takes one use off the others. */
  predicate Gone(r: Rec, now: int) {
    Expired(r, now) && r.uses <= 1
  }

  function Tick(r: Rec, now: int): Rec {
    if Expired(r, now) && r.uses > 0 then r.(uses := r.uses - 1) else r
  }

  /** An expiry pass over the records in `done`. */
  function ExpireOn(m: map<Addr, Rec>, done: set<Addr>, now: int): map<Addr, Rec> {
    map a | a in m && !(a in done && Gone(m[a], now)) :: if a in done then Tick(m[a], now) else m[a]
  }

  function ExpirePass(m: map<Addr, Rec>, now: int): map<Addr, Rec> {
    ExpireOn(m, m.Keys, now)
  }

  /** Processing one more record. */
  lemma ExpireOneMore(m: map<Addr, Rec>, done: set<Addr>, a: Addr, now: int)
    requires a in m && a !in done
    ensures var before := ExpireOn(m, done, now);
            && a in before && before[a] == m[a]
            && ExpireOn(m, done + {a}, now) ==
               if Gone(m[a], now) then before - {a} else before[a := Tick(m[a], now)]
  {
  }

  /** Once every surviving record has been processed the pass is complete. */
  lemma ExpireComplete(m: map<Addr, Rec>, done: set<Addr>, now: int)
    requires forall a :: a in ExpireOn(m, done, now) ==> a in done
    ensures ExpireOn(m, done, now) == ExpirePass(m, now)
  {
  }

  // ------------------------------------------------------------------
  // The life of the database

  /** What happens to the map: an address is learnt, looked up or refreshed, or a pass is made. */
  datatype Op =
    | Learn(a: Addr, mac: Mac, now: int, memory: bool)
    | LookUp(a: Addr, now: int)
    | Refresh(a: Addr, now: int)
    | Pass(now: int)

  function Apply(m: map<Addr, Rec>, op: Op): map<Addr, Rec> {
    match op
    case Learn(a, mac, now, memory) =>
      if a in m then m[a := m[a].(mac := mac, time := now)]
      else if memory then m[a := Rec(mac, now, 1)]
      else m
    case LookUp(a, now) => if a in m && !Expired(m[a], now) then m[a := m[a].(uses := m[a].uses + 1)] else m
    case Refresh(a, now) => if a in m then m[a := m[a].(time := now)] else m
    case Pass(now) => ExpirePass(m, now)
  }

  function Run(m: map<Addr, Rec>, ops: seq<Op>): map<Addr, Rec> {
    if ops == [] then m else Apply(Run(m, ops[..|ops| - 1]), ops[|ops| - 1])
  }

  /** The operation neither learns nor refreshes `a`, and looks it up only when its record has expired. */
  predicate Neglects(op: Op, a: Addr, r: Rec) {
    match op
    case Learn(b, _, _, _) => b != a
    case LookUp(b, now) => b != a || Expired(r, now)
    case Refresh(b, _) => b != a
    case Pass(_) => true
  }

  /** How many passes of a run find the record expired. */
  function ExpiredPasses(r: Rec, ops: seq<Op>): nat {
    if ops == [] then 0
    else
      var last := ops[|ops| - 1];
      ExpiredPasses(r, ops[..|ops| - 1]) + (if last.Pass? && Expired(r, last.now) then 1 else 0)
  }

  /** In any run that neglects it, whatever happens to other addresses, an entry with use count c is
      removed by exactly the c-th pass that finds it expired; until then it loses one use per such pass
      and is otherwise untouched. */
  lemma {:induction false} RemovedByCthPass(m: map<Addr, Rec>, a: Addr, ops: seq<Op>)
    requires a in m && m[a].uses >= 1
    requires forall op :: op in ops ==> Neglects(op, a, m[a])
    ensures var m', n := Run(m, ops), ExpiredPasses(m[a], ops);
            && (a in m' <==> n < m[a].uses)
            && (a in m' ==> m'[a] == m[a].(uses := m[a].uses - n))
  {
    if ops != [] {
      RemovedByCthPass(m, a, ops[..|ops| - 1]);
      assert Neglects(ops[|ops| - 1], a, m[a]);
    }
  }

  /** The MAC learnt last for `a`, and the time it was last learnt or refreshed; the given ones if never. */
  function LastMac(mac: Mac, a: Addr, ops: seq<Op>): Mac {
    if ops == [] then mac
    else
      var last := ops[|ops| - 1];
      if last.Learn? && last.a == a then last.mac else LastMac(mac, a, ops[..|ops| - 1])
  }

  function LastSeen(time: int, a: Addr, ops: seq<Op>): int {
    if ops == [] then time
    else
      var last := ops[|ops| - 1];
      if (last.Learn? || last.Refresh?) && last.a == a then last.now else LastSeen(time, a, ops[..|ops| - 1])
  }

  /** Whatever happens in a run, removal and re-learning included: a record that is there carries the MAC
      learnt last and the time it was last learnt or refreshed. */
  lemma {:induction false} RecordIsLatest(m: map<Addr, Rec>, a: Addr, ops: seq<Op>, mac: Mac, time: int)
    requires a in m ==> m[a].mac == mac && m[a].time == time
    ensures a in Run(m, ops) ==>
              Run(m, ops)[a].mac == LastMac(mac, a, ops) && Run(m, ops)[a].time == LastSeen(time, a, ops)
  {
    if ops != [] {
      RecordIsLatest(m, a, ops[..|ops| - 1], mac, time);
    }
  }

  /** Learning makes an address known, unless it is new and there is no memory. */
  lemma LearntIsKnown(m: map<Addr, Rec>, a: Addr, mac: Mac, now: int, memory: bool)
    ensures var m' := Apply(m, Learn(a, mac, now, memory));
            && (a in m' <==> a in m || memory)
            && (a in m' ==> m'[a] == Rec(mac, now, if a in m then m[a].uses else 1))
  {
  }

  /** How many look-ups of a run find the record fresh. */
  function Hits(r: Rec, a: Addr, ops: seq<Op>): nat {
    if ops == [] then 0
    else
      var last := ops[|ops| - 1];
      Hits(r, a, ops[..|ops| - 1]) + (if last.LookUp? && last.a == a && !Expired(r, last.now) then 1 else 0)
  }

  /** Between two learnings or refreshments, the use count of a record that is still there has gained one
      per look-up that found it fresh and lost one per pass that found it expired. */
  lemma {:induction false} UsesBalance(m: map<Addr, Rec>, a: Addr, ops: seq<Op>)
    requires a in m && m[a].uses >= 1
    requires forall op :: op in ops ==> (op.Learn? || op.Refresh? ==> op.a != a)
    ensures a in Run(m, ops) ==>
              && Run(m, ops)[a].uses == m[a].uses + Hits(m[a], a, ops) - ExpiredPasses(m[a], ops)
              && Run(m, ops)[a].time == m[a].time && Run(m, ops)[a].uses >= 1
  {
    if ops != [] {
      UsesBalance(m, a, ops[..|ops| - 1]);
      assert ops[|ops| - 1] in ops;
    }
  }

  lemma {:induction false} XorOfSlice(a: seq<bv8>, b: seq<bv8>, from: nat, n: nat)
    requires from + n <= |a| && n <= |b| && a[from..from + n] == b[..n]
    ensures Xor(a, from, from + n) == Xor(b, 0, n)
  {
    if n > 0 {
      assert a[from..from + n][..n - 1] == a[from..from + (n - 1)] && b[..n][..n - 1] == b[..n - 1];
      XorOfSlice(a, b, from, n - 1);
      assert a[from..from + n][n - 1] == b[..n][n - 1];
    }
  }

  /** The bucket of an IPv4 address: the low four bits of its bytes' parity. */
  lemma HashOfIpv4(ip: Ip)
    ensures Hash(Ipv4Addr(ip)) == (Xor(ip, 0, 4) & 15) as nat
  {
    assert Ipv4Addr(ip)[7..11] == ip == ip[..4];
    XorOfSlice(Ipv4Addr(ip), ip, 7, 4);
    hide Xor;
  }

  /** Every linked entry has a use left, over every run. */
  lemma {:induction false} AlwaysInUse(m: map<Addr, Rec>, ops: seq<Op>)
    requires forall a :: a in m ==> m[a].uses >= 1
    ensures forall a :: a in Run(m, ops) ==> Run(m, ops)[a].uses >= 1
  {
    if ops != [] {
      AlwaysInUse(m, ops[..|ops| - 1]);
    }
  }
}
