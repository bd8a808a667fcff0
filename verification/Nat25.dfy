/** The NAT2.5 database as an intrusive hash table: 16 singly linked buckets whose entries also know
    the link that points at them, so that unlinking takes no search. */
module Nat25 {
  import opened Common
  import opened Nat25Map

  /** A link cell: a bucket head or the `next` field of an entry. */
  datatype Link = Nowhere | Bucket(i: nat) | NextOf(e: Entry)

  class Entry {
    const addr: Addr
    var mac: Mac
    var time: int
    var uses: nat
    var next: Entry?
    var pprev: Link

    constructor (addr: Addr, mac: Mac, now: int)
      ensures this.addr == addr && this.mac == mac && time == now && uses == 1
      ensures next == null && pprev == Nowhere
    {
      this.addr := addr;
      this.mac := mac;
      time := now;
      uses := 1;
      next := null;
      pprev := Nowhere;
    }

    ghost function Value(): Rec
      reads this`mac, this`time, this`uses
    {
      Rec(mac, time, uses)
    }
  }

  ghost predicate Distinct(c: seq<Entry>) {
    forall k, l :: 0 <= k < l < |c| ==> c[k] != c[l]
  }

  /** The chains hold exactly the indexed entries, each once, in the bucket its address hashes to. */
  ghost predicate Structure(chains: seq<seq<Entry>>, index: map<Addr, Entry>) {
    && |chains| == HASH_SIZE
    && (forall a :: a in index ==> index[a].addr == a && index[a] in chains[Hash(a)])
    && (forall i, k :: 0 <= i < HASH_SIZE && 0 <= k < |chains[i]| ==>
          && Hash(chains[i][k].addr) == i
          && chains[i][k].addr in index && index[chains[i][k].addr] == chains[i][k])
    && (forall i :: 0 <= i < HASH_SIZE ==> Distinct(chains[i]))
  }

  lemma AddToStructure(chains: seq<seq<Entry>>, index: map<Addr, Entry>, e: Entry)
    requires Structure(chains, index) && e.addr !in index
    ensures var h := Hash(e.addr);
            Structure(chains[h := [e] + chains[h]], index[e.addr := e])
  {
    hide Hash;
    var h := Hash(e.addr);
    var chains', index' := chains[h := [e] + chains[h]], index[e.addr := e];
    forall a | a in index' ensures index'[a].addr == a && index'[a] in chains'[Hash(a)] {
      if a == e.addr {
        assert chains'[h][0] == e;
      } else {
        var k :| 0 <= k < |chains[Hash(a)]| && chains[Hash(a)][k] == index[a];
        assert chains'[Hash(a)][if Hash(a) == h then k + 1 else k] == index[a];
      }
    }
    forall i, k | 0 <= i < HASH_SIZE && 0 <= k < |chains'[i]|
      ensures Hash(chains'[i][k].addr) == i
      ensures chains'[i][k].addr in index' && index'[chains'[i][k].addr] == chains'[i][k]
    {
      if i == h && k > 0 {
        assert chains'[i][k] == chains[h][k - 1];
      }
    }
    forall k, l | 0 <= k < l < |chains'[h]|
      ensures chains'[h][k] != chains'[h][l]
    {
      assert chains'[h][l] == chains[h][l - 1];
    }
  }

  lemma IndexedByAddr(chains: seq<seq<Entry>>, index: map<Addr, Entry>)
    requires Structure(chains, index)
    ensures |chains| == HASH_SIZE && forall a :: a in index ==> index[a].addr == a
  {
  }

  /** Entries of other buckets are other objects. */
  lemma OthersApart(chains: seq<seq<Entry>>, index: map<Addr, Entry>, h: nat)
    requires Structure(chains, index) && h < HASH_SIZE
    ensures |chains| == HASH_SIZE && Distinct(chains[h])
    ensures forall k :: 0 <= k < |chains[h]| ==> Hash(chains[h][k].addr) == h
    ensures forall e :: e in chains[h] ==> e in index.Values && e.addr in index && index[e.addr] == e
    ensures forall i, k :: 0 <= i < HASH_SIZE && i != h && 0 <= k < |chains[i]| ==> chains[i][k] !in chains[h]
    ensures forall i, k :: 0 <= i < HASH_SIZE && 0 <= k < |chains[i]| ==> chains[i][k].addr in index
  {
  }

  function Without<T>(c: seq<T>, k: nat): seq<T>
    requires k < |c|
  {
    c[..k] + c[k + 1..]
  }

  lemma CutOut(c: seq<Entry>, k: nat)
    requires k < |c| && Distinct(c)
    ensures Distinct(Without(c, k))
    ensures forall e :: e in Without(c, k) <==> e in c && e != c[k]
  {
  }

  lemma RemoveFromStructure(chains: seq<seq<Entry>>, index: map<Addr, Entry>, f: Entry, k: nat)
    requires Structure(chains, index)
    requires k < |chains[Hash(f.addr)]| && chains[Hash(f.addr)][k] == f
    ensures var h := Hash(f.addr);
            Structure(chains[h := Without(chains[h], k)], index - {f.addr})
  {
    hide Hash;
    var h := Hash(f.addr);
    CutOut(chains[h], k);
    hide Without, Distinct;
    var chains': seq<seq<Entry>> := chains[h := Without(chains[h], k)];
    var index' := index - {f.addr};
    forall i, l | 0 <= i < HASH_SIZE && 0 <= l < |chains'[i]|
      ensures Hash(chains'[i][l].addr) == i
      ensures chains'[i][l].addr in index' && index'[chains'[i][l].addr] == chains'[i][l]
    {
      var e := chains'[i][l];
      assert e in chains[i];
      var l' :| 0 <= l' < |chains[i]| && chains[i][l'] == e;
    }
  }

  /** The `next` and `pprev` fields spell out the chain `c` hanging off bucket `i`. */
  ghost predicate Linked(head: Entry?, c: seq<Entry>, i: nat)
    reads (set e | e in c)`next, (set e | e in c)`pprev
  {
    && head == (if c == [] then null else c[0])
    && (forall k {:trigger c[k].next} :: 0 <= k < |c| ==> c[k].next == if k + 1 < |c| then c[k + 1] else null)
    && (forall k {:trigger c[k].pprev} :: 0 <= k < |c| ==> c[k].pprev == if k == 0 then Bucket(i) else NextOf(c[k - 1]))
  }

  class Database {
    const nethash: array<Entry?>
    var scdbEntry: Entry?
    var scdbMac: Mac
    var scdbIp: Ip

    ghost var chains: seq<seq<Entry>>
    ghost var index: map<Addr, Entry>

    ghost predicate Valid()
      reads this, nethash, index.Values
    {
      && nethash.Length == HASH_SIZE && Structure(chains, index)
      && (forall i :: 0 <= i < HASH_SIZE ==> Linked(nethash[i], chains[i], i))
      && (forall a :: a in index ==> index[a].uses >= 1)
      && (scdbEntry != null ==>
            scdbEntry.addr in index && index[scdbEntry.addr] == scdbEntry && scdbEntry.addr == Ipv4Addr(scdbIp))
    }

    /** The map this table stands for. */
    ghost function View(): map<Addr, Rec>
      reads this`index, index.Values`mac, index.Values`time, index.Values`uses
    {
      map a | a in index :: index[a].Value()
    }

    constructor ()
      ensures Valid() && fresh(nethash) && View() == map[] && index == map[]
      ensures scdbEntry == null && scdbMac == NO_MAC && scdbIp == NO_IP
    {
      nethash := new Entry?[HASH_SIZE](_ => null);
      scdbEntry := null;
      scdbMac, scdbIp := NO_MAC, NO_IP;
      chains := seq(HASH_SIZE, _ => []);
      index := map[];
    }

    /** The search loop shared by lookup, insert and the scdb cache. */
    method FindEntry(addr: Addr) returns (e: Entry?)
      requires Valid()
      ensures e == if addr in index then index[addr] else null
      ensures e != null ==> e.addr == addr && e.uses >= 1
    {
      hide Hash;
      var h := Hash(addr);
      e := nethash[h];
      ghost var k := 0;
      while e != null
        invariant 0 <= k <= |chains[h]|
        invariant e == if k < |chains[h]| then chains[h][k] else null
        invariant forall j :: 0 <= j < k ==> chains[h][j].addr != addr
        decreases |chains[h]| - k
      {
        if e.addr == addr {
          return;
        }
        e := e.next;
        k := k + 1;
      }
    }

    /** __network_hash_link, as seen by the chain `c` of bucket `h`. */
    method LinkIn(ent: Entry, h: nat, ghost c: seq<Entry>)
      requires h < nethash.Length && Linked(nethash[h], c, h)
      requires ent !in c && Distinct(c)
      modifies nethash, ent`next, ent`pprev, (set e | e in c)`pprev
      ensures Linked(nethash[h], [ent] + c, h)
      ensures nethash[..] == old(nethash[..])[h := ent]
    {
      ent.next := nethash[h];
      if ent.next != null {
        assert c[0] in c;
        ent.next.pprev := NextOf(ent);
      }
      nethash[h] := ent;
      ent.pprev := Bucket(h);
    }

    /** __network_hash_unlink: no search, only the entry's own two links. */
    method Bypass(f: Entry, ghost h: nat, ghost c: seq<Entry>, ghost k: nat)
      requires h < nethash.Length && Distinct(c) && k < |c| && c[k] == f
      requires f.pprev == if k == 0 then Bucket(h) else NextOf(c[k - 1])
      requires f.next == if k + 1 < |c| then c[k + 1] else null
      modifies nethash, (set e | e in c)`next, (set e | e in c)`pprev
      ensures nethash[..] == if k == 0 then old(nethash[..])[h := old(f.next)] else old(nethash[..])
      ensures f.next == null && f.pprev == Nowhere
      ensures forall j {:trigger c[j].next} :: 0 <= j < |c| && j != k ==>
                c[j].next == if j == k - 1 then old(f.next) else old(c[j].next)
      ensures forall j {:trigger c[j].pprev} :: 0 <= j < |c| && j != k ==>
                c[j].pprev == if j == k + 1 then old(f.pprev) else old(c[j].pprev)
    {
      match f.pprev {
        case Bucket(i) => nethash[i] := f.next;
        case NextOf(p) => p.next := f.next;
        case Nowhere =>
      }
      if f.next != null {
        f.next.pprev := f.pprev;
      }
      f.next := null;
      f.pprev := Nowhere;
    }

    /** Unlinking, as seen by the chain `c` of bucket `h`. */
    method Splice(f: Entry, ghost h: nat, ghost c: seq<Entry>, ghost k: nat)
      requires h < nethash.Length && Linked(nethash[h], c, h)
      requires Distinct(c) && k < |c| && c[k] == f
      modifies nethash, (set e | e in c)`next, (set e | e in c)`pprev
      ensures Linked(nethash[h], Without(c, k), h)
      ensures nethash[..] == old(nethash[..])[h := nethash[h]]
      ensures f.next == null && f.pprev == Nowhere
    {
      Bypass(f, h, c, k);
      ghost var c' := Without(c, k);
      assert forall j :: 0 <= j < |c'| ==> c'[j] == c[if j < k then j else j + 1];
    }

    method LinkEntry(ent: Entry, h: nat)
      requires Valid()
      requires ent.addr !in index && h == Hash(ent.addr) && ent.uses >= 1
      modifies this`chains, this`index, nethash, ent`next, ent`pprev, index.Values`pprev
      ensures Valid()
      ensures index == old(index)[ent.addr := ent]
      ensures View() == old(View())[ent.addr := ent.Value()]
    {
      hide Hash, Structure, Linked;
      OthersApart(chains, index, h);
      AddToStructure(chains, index, ent);
      ghost var c := chains[h];
      LinkIn(ent, h, c);
      assert View() == old(View());
      forall i | 0 <= i < HASH_SIZE && i != h ensures Linked(nethash[i], chains[i], i) {
        assert old(Linked(nethash[i], chains[i], i));
      }
      chains := chains[h := [ent] + c];
      index := index[ent.addr := ent];
    }

    method Unlink(f: Entry, ghost k: nat)
      requires Valid() && scdbEntry != f
      requires f.addr in index && k < |chains[Hash(f.addr)]| && chains[Hash(f.addr)][k] == f
      modifies this`chains, this`index, nethash, index.Values`next, index.Values`pprev
      ensures Valid()
      ensures index == old(index) - {f.addr}
      ensures View() == old(View()) - {f.addr}
      ensures var h := Hash(f.addr); chains == old(chains)[h := Without(old(chains)[h], k)]
      ensures f.next == null && f.pprev == Nowhere
    {
      hide Hash, Structure, Linked, Without;
      ghost var h := Hash(f.addr);
      RemoveFromStructure(chains, index, f, k);
      OthersApart(chains, index, h);
      Splice(f, h, chains[h], k);
      assert View() == old(View());
      forall i | 0 <= i < HASH_SIZE && i != h ensures Linked(nethash[i], chains[i], i) {
        assert old(Linked(nethash[i], chains[i], i));
      }
      chains := chains[h := Without(chains[h], k)];
      index := index - {f.addr};
    }

    /** Overwrites the record of an entry in place. */
    method Store(e: Entry, r: Rec)
      requires Valid() && e.addr in index && index[e.addr] == e && r.uses >= 1
      modifies e`mac, e`time, e`uses
      ensures Valid()
      ensures View() == old(View())[e.addr := r]
    {
      hide Hash, Linked, Structure;
      IndexedByAddr(chains, index);
      e.mac, e.time, e.uses := r.mac, r.time, r.uses;
      forall i | 0 <= i < HASH_SIZE ensures Linked(nethash[i], chains[i], i) {
        assert old(Linked(nethash[i], chains[i], i));
      }
    }

    /** __nat25_db_network_insert. Memory for a new entry may not be available. */
    method Insert(mac: Mac, addr: Addr, now: int, memory: bool)
      requires Valid()
      modifies this`chains, this`index, nethash, index.Values
      ensures Valid()
      ensures fresh(index.Values - old(index.Values))
      ensures View() == Apply(old(View()), Learn(addr, mac, now, memory))
    {
      hide Hash, Structure, Linked;
      var db := FindEntry(addr);
      if db != null {
        assert View()[addr] == db.Value();
        Store(db, Rec(mac, now, db.uses));
        return;
      }
      if memory {
        var ent := new Entry(addr, mac, now);
        assert View() == old(View());
        LinkEntry(ent, Hash(addr));
      }
    }

    /** __nat25_db_network_lookup_and_replace: whether the address is known, and the MAC to put into
        the frame if its record is not too old. */
    method LookupAndReplace(addr: Addr, now: int) returns (known: bool, mac: Option<Mac>)
      requires Valid()
      modifies index.Values`mac, index.Values`time, index.Values`uses
      ensures Valid()
      ensures known == (addr in old(View()))
      ensures mac == if known && !Expired(old(View())[addr], now) then Some(old(View())[addr].mac) else None
      ensures View() == Apply(old(View()), LookUp(addr, now))
    {
      hide Hash, Structure, Linked;
      var db := FindEntry(addr);
      if db == null {
        return false, None;
      }
      known, mac := true, None;
      if !(db.time <= now - AGEING_TIME) {
        mac := Some(db.mac);
        Store(db, Rec(db.mac, db.time, db.uses + 1));
      }
    }

    /** Forgets the shortcut if it refers to `f`, then unlinks and frees `f`. */
    method Remove(f: Entry, ghost k: nat)
      requires Valid()
      requires f.addr in index && k < |chains[Hash(f.addr)]| && chains[Hash(f.addr)][k] == f
      modifies this, nethash, index.Values`next, index.Values`pprev
      ensures Valid()
      ensures index == old(index) - {f.addr}
      ensures View() == old(View()) - {f.addr}
      ensures var h := Hash(f.addr); chains == old(chains)[h := Without(old(chains)[h], k)]
      ensures scdbEntry == if old(scdbEntry) == f then null else old(scdbEntry)
    {
      hide Hash, Structure, Linked;
      if scdbEntry == f {
        SetShortcut(null, NO_MAC, NO_IP);
      }
      Unlink(f, k);
    }

    /** The body of the expiry loop, for the entry at position `k` of bucket `i`. The ghost result is
        the position of its old successor. */
    method ExpireEntry(f: Entry, now: int, ghost i: nat, ghost k: nat) returns (ghost k': nat)
      requires Valid() && i < HASH_SIZE && k < |chains[i]| && chains[i][k] == f
      modifies this, nethash, index.Values
      ensures Valid()
      ensures f.addr in old(View())
      ensures var r := old(View())[f.addr];
              && r.uses >= 1
              && View() == (if Gone(r, now) then old(View()) - {f.addr} else old(View())[f.addr := Tick(r, now)])
              && k' == (if Gone(r, now) then k else k + 1)
              && index == (if Gone(r, now) then old(index) - {f.addr} else old(index))
              && chains == if Gone(r, now) then old(chains)[i := Without(old(chains)[i], k)] else old(chains)
    {
      hide Hash, Linked;
      assert Hash(f.addr) == i && index[f.addr] == f;
      hide Structure;
      k' := k + 1;
      if f.time <= now - AGEING_TIME {
        var left := f.uses - 1;
        if left == 0 {
          Remove(f, k);
          k' := k;
        } else {
          Store(f, Rec(f.mac, f.time, left));
        }
      }
    }

    method SweepBucket(i: nat, now: int, ghost m: map<Addr, Rec>, ghost start: set<Addr>) returns (ghost done: set<Addr>)
      requires Valid() && i < HASH_SIZE
      requires View() == ExpireOn(m, start, now) && forall a :: a in index ==> (a in start <==> Hash(a) < i)
      modifies this, nethash, index.Values
      ensures Valid() && index.Values <= old(index.Values)
      ensures View() == ExpireOn(m, done, now) && forall a :: a in index ==> (a in done <==> Hash(a) < i + 1)
    {
      hide Hash, Linked, Structure;
      done := start;
      var f := nethash[i];
      ghost var k: nat := 0;
      PassStart(chains, index, done, i);
      HeadAndNext(i, 0);
      while f != null
        invariant Valid() && index.Values <= old(index.Values)
        invariant |chains| == HASH_SIZE && k <= |chains[i]| && f == At(chains[i], k)
        invariant View() == ExpireOn(m, done, now)
        invariant PassedBy(chains, index, done, i, k)
        decreases |chains[i]| - k
      {
        HeadAndNext(i, k);
        PassStep(chains, index, done, i, k);
        assert f.addr in View();
        ExpireOneMore(m, done, f.addr, now);
        var g := f.next;
        k := ExpireEntry(f, now, i, k);
        done := done + {f.addr};
        f := g;
      }
      PassEnd(chains, index, done, i);
    }

    /** nat25_db_expire */
    method Expire(now: int)
      requires Valid()
      modifies this, nethash, index.Values
      ensures Valid() && index.Values <= old(index.Values)
      ensures View() == Apply(old(View()), Pass(now))
    {
      hide Hash, Linked, Structure;
      ghost var m := View();
      ghost var done := {};
      assert View() == ExpireOn(m, done, now);
      for i := 0 to HASH_SIZE
        invariant Valid() && index.Values <= old(index.Values)
        invariant View() == ExpireOn(m, done, now) && forall a :: a in index ==> (a in done <==> Hash(a) < i)
      {
        done := SweepBucket(i, now, m, done);
      }
      assert forall a :: a in View() ==> a in index && Hash(a) < HASH_SIZE;
      ExpireComplete(m, done, now);
    }

    /** nat25_db_cleanup */
    method Cleanup()
      requires Valid()
      modifies this, nethash, index.Values
      ensures Valid() && View() == map[] && scdbEntry == null
    {
      hide Hash, Linked, Structure;
      HeadAndNext(0, 0);
      for i := 0 to HASH_SIZE
        invariant Valid() && index.Values <= old(index.Values)
        invariant |chains| == HASH_SIZE && forall j :: 0 <= j < i ==> chains[j] == []
      {
        CleanBucket(i);
      }
      NothingLeft(chains, index);
    }

    method CleanBucket(i: nat)
      requires Valid() && i < HASH_SIZE
      modifies this, nethash, index.Values
      ensures Valid() && index.Values <= old(index.Values)
      ensures |chains| == |old(chains)| == HASH_SIZE && chains == old(chains)[i := []]
    {
      hide Hash, Linked, Structure;
      var f := nethash[i];
      HeadAndNext(i, 0);
      while f != null
        invariant Valid() && index.Values <= old(index.Values)
        invariant |chains| == HASH_SIZE && chains == old(chains)[i := chains[i]]
        invariant f == At(chains[i], 0)
        decreases |chains[i]|
      {
        HeadAndNext(i, 0);
        OthersApart(chains, index, i);
        var g := f.next;
        Remove(f, 0);
        f := g;
      }
    }

    method SetShortcut(e: Entry?, mac: Mac, ip: Ip)
      requires Valid() && (e != null ==> e.addr in index && index[e.addr] == e && e.addr == Ipv4Addr(ip))
      modifies this`scdbEntry, this`scdbMac, this`scdbIp
      ensures Valid() && scdbEntry == e && scdbMac == mac && scdbIp == ip && View() == old(View())
    {
      hide Hash, Linked, Ipv4Addr;
      scdbEntry, scdbMac, scdbIp := e, mac, ip;
      forall i | 0 <= i < HASH_SIZE ensures Linked(nethash[i], chains[i], i) {
        assert old(Linked(nethash[i], chains[i], i));
      }
    }

    /** The source-address shortcut of aic_br_client_tx for an IP frame: `scdbEntry` caches the record
        of the last source seen. The result says whether the full NAT2.5 handling is still needed. The
        address is looked at only when the source MAC changes: the record refreshed is the one of the
        frame's own address exactly if the MAC is new or the address has not changed. */
    method Shortcut(src: Mac, ip: Ip, now: int) returns (full: bool)
      requires Valid()
      modifies this`scdbEntry, this`scdbMac, this`scdbIp, index.Values`mac, index.Values`time, index.Values`uses
      ensures Valid() && index == old(index)
      ensures full <==> scdbEntry == null
      ensures if old(scdbMac) == src then scdbEntry == old(scdbEntry)
              else if Ipv4Addr(ip) in old(View()) then scdbEntry == index[Ipv4Addr(ip)] && scdbIp == ip
              else scdbEntry == null
      ensures scdbEntry != null ==> scdbMac == src
      ensures View() == if full then old(View()) else Apply(old(View()), Refresh(scdbEntry.addr, now))
      ensures !full ==> (scdbEntry.addr == Ipv4Addr(ip) <==> old(scdbMac) != src || old(scdbIp) == ip)
    {
      hide Hash, Structure, Linked, Ipv4Addr;
      Ipv4Distinct(ip, scdbIp);
      full := true;
      if scdbMac != src {
        var e := FindEntry(Ipv4Addr(ip));
        if e == null {
          SetShortcut(null, scdbMac, scdbIp);
        } else {
          SetShortcut(e, src, ip);
          Touch(e, now);
          full := false;
        }
      } else {
        if scdbEntry != null {
          Touch(scdbEntry, now);
          full := false;
        } else {
          SetShortcut(null, NO_MAC, NO_IP);
        }
      }
    }

    /** Refreshes the ageing timer of an entry. */
    method Touch(e: Entry, now: int)
      requires Valid() && e.addr in index && index[e.addr] == e
      modifies e`mac, e`time, e`uses
      ensures Valid() && View() == Apply(old(View()), Refresh(e.addr, now))
    {
      hide Hash, Structure, Linked, Ipv4Addr;
      assert View()[e.addr] == e.Value();
      Store(e, Rec(e.mac, now, e.uses));
    }

    lemma HeadAndNext(i: nat, k: nat)
      requires Valid() && i < HASH_SIZE
      ensures |chains| == HASH_SIZE
      ensures k == 0 ==> nethash[i] == At(chains[i], 0)
      ensures k < |chains[i]| ==> chains[i][k].next == At(chains[i], k + 1)
    {
    }
  }

  /** A host known under two addresses sends from the first and later from the second. The later frame
      refreshes the first record, so the next pass removes the address that is in use and keeps the other. */
  method AddressInUseIsForgotten(mac: Mac, first: Ip, second: Ip, start: int, later: int, now: int)
    returns (keptFirst: bool, keptSecond: bool)
    requires mac != NO_MAC && first != second && start <= now - AGEING_TIME < later
    ensures keptFirst && !keptSecond
  {
    var x, y := Ipv4Addr(first), Ipv4Addr(second);
    Ipv4Distinct(first, second);
    SecondForgotten(mac, x, y, start, later, now);
    hide Ipv4Addr, Hash, Structure, Linked, Apply, Database.Valid, Twice;
    var db := SendFromBoth(mac, first, second, start, later);
    db.Expire(now);
    var hit;
    keptFirst, hit := db.LookupAndReplace(x, now);
    keptSecond, hit := db.LookupAndReplace(y, now);
  }

  /** An address that moves to another host: frames to it go to the new one. */
  method MovedAddressIsFollowed(addr: Addr, before: Mac, after: Mac, t0: int, t1: int, now: int)
    returns (known: bool, mac: Option<Mac>)
    requires now - AGEING_TIME < t1
    ensures known && mac == Some(after)
  {
    LearntIsKnown(map[], addr, before, t0, true);
    LearntIsKnown(Apply(map[], Learn(addr, before, t0, true)), addr, after, t1, true);
    hide Apply, Hash, Structure, Linked, Database.Valid;
    var db := new Database();
    db.Insert(before, addr, t0, true);
    db.Insert(after, addr, t1, true);
    known, mac := db.LookupAndReplace(addr, now);
  }

  method SendFromBoth(mac: Mac, first: Ip, second: Ip, start: int, later: int) returns (db: Database)
    requires mac != NO_MAC && first != second
    ensures db.Valid() && fresh(db) && fresh(db.nethash) && fresh(db.index.Values)
    ensures db.View() == Twice(mac, Ipv4Addr(first), Ipv4Addr(second), start, later)
  {
    var x, y := Ipv4Addr(first), Ipv4Addr(second);
    SecondForgotten(mac, x, y, start, later, later);
    hide Ipv4Addr, Hash, Structure, Linked, Apply, Database.Valid;
    db := new Database();
    db.Insert(mac, x, start, true);
    db.Insert(mac, y, start, true);
    assert db.View() == Both(mac, x, y, start) && fresh(db.index.Values);
    ghost var linked := db.index;
    var full := db.Shortcut(mac, first, start);
    assert db.scdbEntry.addr == x && db.scdbMac == mac;
    full := db.Shortcut(mac, second, later);
    assert db.index == linked;
  }

  /** Two addresses learnt, and the first of them refreshed twice. */
  function Both(mac: Mac, x: Addr, y: Addr, start: int): map<Addr, Rec> {
    Apply(Apply(map[], Learn(x, mac, start, true)), Learn(y, mac, start, true))
  }

  function Twice(mac: Mac, x: Addr, y: Addr, start: int, later: int): map<Addr, Rec> {
    Apply(Apply(Both(mac, x, y, start), Refresh(x, start)), Refresh(x, later))
  }

  lemma SecondForgotten(mac: Mac, x: Addr, y: Addr, start: int, later: int, now: int)
    ensures x in Both(mac, x, y, start)
    ensures x != y && start <= now - AGEING_TIME < later ==>
              var m := Apply(Twice(mac, x, y, start, later), Pass(now));
              x in m && y !in Apply(m, LookUp(x, now))
  {
  }

  lemma NothingLeft(chains: seq<seq<Entry>>, index: map<Addr, Entry>)
    requires Structure(chains, index) && forall i :: 0 <= i < |chains| ==> chains[i] == []
    ensures index == map[]
  {
  }

  function At(c: seq<Entry>, k: nat): Entry? {
    if k < |c| then c[k] else null
  }

  /** The addresses an expiry pass has dealt with when it stands before position `k` of bucket `i`. */
  ghost predicate PassedBy(chains: seq<seq<Entry>>, index: map<Addr, Entry>, done: set<Addr>, i: nat, k: nat)
    requires i < |chains| && k <= |chains[i]|
  {
    forall a :: a in index ==> (a in done <==> Hash(a) < i || index[a] in chains[i][..k])
  }

  lemma PassStart(chains: seq<seq<Entry>>, index: map<Addr, Entry>, done: set<Addr>, i: nat)
    requires Structure(chains, index) && i < HASH_SIZE
    requires forall a :: a in index ==> (a in done <==> Hash(a) < i)
    ensures |chains| == HASH_SIZE && PassedBy(chains, index, done, i, 0)
  {
  }

  lemma PassEnd(chains: seq<seq<Entry>>, index: map<Addr, Entry>, done: set<Addr>, i: nat)
    requires Structure(chains, index) && i < HASH_SIZE
    requires PassedBy(chains, index, done, i, |chains[i]|)
    ensures forall a :: a in index ==> (a in done <==> Hash(a) < i + 1)
  {
  }

  /** Moving past the entry at `k`, whether it stays or goes. */
  lemma PassStep(chains: seq<seq<Entry>>, index: map<Addr, Entry>, done: set<Addr>, i: nat, k: nat)
    requires Structure(chains, index) && i < HASH_SIZE && k < |chains[i]|
    requires PassedBy(chains, index, done, i, k)
    ensures var f := chains[i][k];
            && f.addr in index && f.addr !in done
            && PassedBy(chains, index, done + {f.addr}, i, k + 1)
            && var chains' := chains[i := Without(chains[i], k)];
            && k <= |chains'[i]| && At(chains'[i], k) == At(chains[i], k + 1)
            && PassedBy(chains', index - {f.addr}, done + {f.addr}, i, k)
  {
  }
}
