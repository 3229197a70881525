/** The gRPC client connection pool of client/grpc/grpc_pool.go as objects:
    `pool` maps each address to a `streamsPool`, a doubly linked list of
    `poolConn` nodes behind a sentinel head. Every operation is atomic here
    (the mutex is not modelled); dialing is an input and closing the
    transport sets a flag. */
module GrpcPool {
  import opened PoolSpec

  /** Position of `x` in `s` (the unique one when `s` has no repeats). */
  ghost function IndexOf(s: seq<PoolConn>, x: PoolConn): (i: nat)
    requires x in s
    ensures i < |s| && s[i] == x
  {
    if s[0] == x then 0 else 1 + IndexOf(s[1..], x)
  }

  /** A pooled connection, or the sentinel head of a list. */
  class PoolConn {
    const cc: Option<ClientConn>
    var err: Option<Error>
    const addr: string
    const pool: Pool?
    const sp: StreamsPool?
    var streams: int
    const created: int
    var pre: PoolConn?
    var next: PoolConn?
    /** Whether `ClientConn.Close` has been called on the transport. */
    var closed: bool

    ghost function View(): Conn
      reads this
    {
      Conn(streams, created, closed, err)
    }

    /** The zero-valued `poolConn{}` used as a list head. */
    constructor Sentinel()
      ensures cc == None && err == None && addr == "" && pool == null && sp == null
      ensures streams == 0 && created == 0 && pre == null && next == null && !closed
    {
      cc, err, addr, pool, sp := None, None, "", null, null;
      streams, created, pre, next, closed := 0, 0, null, null, false;
    }

    /** A freshly dialed connection: one stream, no error, not linked. */
    constructor (cc: ClientConn, addr: string, pool: Pool, sp: StreamsPool, created: int)
      ensures this.cc == Some(cc) && err == None && this.addr == addr
      ensures this.pool == pool && this.sp == sp && this.created == created
      ensures streams == 1 && pre == null && next == null && !closed
    {
      this.cc, err, this.addr, this.pool, this.sp := Some(cc), None, addr, pool, sp;
      streams, this.created, pre, next, closed := 1, created, null, null, false;
    }

    /** `poolConn.Close`: hands the connection back to its pool with its own
        recorded error. */
    method Close(now: int)
      requires pool != null && pool.Valid()
      requires sp != null && sp in pool.conns.Values && this in sp.Conns && streams >= 1
      modifies sp.Repr
      ensures pool.Valid() && pool.Repr() <= old(pool.Repr())
      ensures sp.View() == AfterRelease(old(sp.View()), IndexOf(old(sp.Conns), this), old(err),
                                        pool.maxIdle, pool.ttl, now)
      ensures var k := IndexOf(old(sp.Conns), this);
        var evicted := streams == 0 && Evicts(old(err), old(sp.idle), pool.maxIdle, now, created, pool.ttl);
        && streams == old(streams) - 1
        && closed == (old(closed) || evicted)
        && sp.Conns == (if evicted && k + 1 < |old(sp.Conns)| then old(sp.Conns)[..k] + old(sp.Conns)[k + 1..]
                        else old(sp.Conns))
      ensures forall c :: c in old(sp.Conns) ==> c.err == old(c.err)
    {
      pool.Release(addr, this, err, now);
    }

    /** What `Unlinked` needs: the node at `k`, which has a successor, has
        been spliced out and uncounted, and nothing else has changed. */
    twostate predicate Spliced(k: nat)
      requires sp != null
      reads this, sp, sp.Repr
    {
      && old(sp.Valid()) && k + 1 < |old(sp.Conns)| && this == old(sp.Conns)[k]
      && var o := old(sp.Conns);
      var pred := if k == 0 then old(sp.head) else o[k - 1];
      var succ := o[k + 1];
      && sp.head == old(sp.head) && sp.Conns == o[..k] + o[k + 1..]
      && sp.Repr == old(sp.Repr) - {o[k]}
      && sp.count == old(sp.count) - 1 && sp.idle == old(sp.idle)
      && pred.next == succ && pred.pre == old(pred.pre)
      && succ.pre == pred && succ.next == old(succ.next)
      && (k != 0 ==> sp.head.next == old(sp.head.next) && sp.head.pre == old(sp.head.pre))
      && (forall i :: 0 <= i < |o| && o[i] != pred && o[i] != succ ==>
            o[i].next == old(o[i].next) && o[i].pre == old(o[i].pre))
      && (forall i :: 0 <= i < |o| ==> o[i].View() == old(o[i].View()))
    }

    twostate lemma Unlinked(k: nat)
      requires sp != null && Spliced(k)
      ensures sp.Valid()
      ensures sp.View() == old(sp.View()).(conns := old(sp.View()).conns[..k] + old(sp.View()).conns[k + 1..],
                                           count := old(sp.count) - 1)
      ensures forall c :: c in old(sp.Conns) ==> c.err == old(c.err)
    {
      forall c | c in old(sp.Conns)
        ensures c.err == old(c.err)
      {
        var i := IndexOf(old(sp.Conns), c);
        assert c.View() == old(c.View());
      }
      SplicedNexts(k);
      SplicedPres(k);
      SplicedValid(k);
      SplicedView(k);
    }

    twostate lemma SplicedNexts(k: nat)
      requires sp != null && Spliced(k)
      ensures forall i :: 0 <= i < |sp.Conns| ==>
        sp.Nexts()[i] == (if i + 1 < |sp.Conns| then sp.Conns[i + 1] else null)
      ensures sp.head.next == (if sp.Conns == [] then null else sp.Conns[0])
    {
      var o, n := old(sp.Conns), sp.Conns;
      var pred := if k == 0 then old(sp.head) else o[k - 1];
      assert forall i :: 0 <= i < k ==> n[i] == o[i];
      assert forall i :: k <= i < |n| ==> n[i] == o[i + 1];
      forall i | 0 <= i < |n|
        ensures sp.Nexts()[i] == (if i + 1 < |n| then n[i + 1] else null)
      {
        if i + 1 == k {
          assert n[i] == pred;
        } else if i < k {
          assert o[i] != pred && old(sp.Nexts())[i] == old(o[i].next);
        } else {
          assert o[i + 1] != pred && old(sp.Nexts())[i + 1] == old(o[i + 1].next);
        }
      }
    }

    twostate lemma SplicedPres(k: nat)
      requires sp != null && Spliced(k)
      ensures forall i :: 0 <= i < |sp.Conns| - 1 ==>
        sp.Pres()[i] == (if i == 0 then sp.head else sp.Conns[i - 1])
      ensures var n := sp.Conns;
        n != [] ==> sp.Pres()[|n| - 1] == null || sp.Pres()[|n| - 1] == (if |n| == 1 then sp.head else n[|n| - 2])
    {
      var o, n := old(sp.Conns), sp.Conns;
      var succ := o[k + 1];
      assert forall i :: 0 <= i < k ==> n[i] == o[i];
      assert forall i :: k <= i < |n| ==> n[i] == o[i + 1];
      forall i | 0 <= i < |n| - 1
        ensures sp.Pres()[i] == (if i == 0 then sp.head else n[i - 1])
      {
        if i == k {
          assert n[i] == succ;
        } else if i < k {
          assert o[i] != succ && old(sp.Pres())[i] == old(o[i].pre);
        } else {
          assert o[i + 1] != succ && old(sp.Pres())[i + 1] == old(o[i + 1].pre);
        }
      }
      var last := |n| - 1;
      if last != k {
        assert o[last + 1] != succ && old(sp.Pres())[last + 1] == old(o[last + 1].pre);
      }
    }

    twostate lemma SplicedValid(k: nat)
      requires sp != null && Spliced(k)
      requires forall i :: 0 <= i < |sp.Conns| ==>
        sp.Nexts()[i] == (if i + 1 < |sp.Conns| then sp.Conns[i + 1] else null)
      requires sp.head.next == (if sp.Conns == [] then null else sp.Conns[0])
      requires forall i :: 0 <= i < |sp.Conns| - 1 ==>
        sp.Pres()[i] == (if i == 0 then sp.head else sp.Conns[i - 1])
      requires var n := sp.Conns;
        n != [] ==> sp.Pres()[|n| - 1] == null || sp.Pres()[|n| - 1] == (if |n| == 1 then sp.head else n[|n| - 2])
      ensures sp.Valid()
    {
      var o, n := old(sp.Conns), sp.Conns;
      assert forall i :: 0 <= i < k ==> n[i] == o[i];
      assert forall i :: k <= i < |n| ==> n[i] == o[i + 1];
    }

    twostate lemma SplicedView(k: nat)
      requires sp != null && Spliced(k) && sp.Valid()
      ensures sp.View() == old(sp.View()).(conns := old(sp.View()).conns[..k] + old(sp.View()).conns[k + 1..],
                                           count := old(sp.count) - 1)
    {
      var o, n := old(sp.Conns), sp.Conns;
      assert forall i :: 0 <= i < k ==> n[i] == o[i];
      assert forall i :: k <= i < |n| ==> n[i] == o[i + 1];
      var v := old(sp.View()).conns;
      assert sp.View().conns == v[..k] + v[k + 1..];
    }
  }

  /** The link structure of a list behind the sentinel `head` whose nodes,
      in order, are `cs`, where `first` is `head.next` and `nexts` and `pres`
      are the nodes' `next` and `pre` fields. Only the last node may have
      lost its `pre` link (what `removeConn` does to a node without a
      successor). */
  ghost predicate Linked(head: PoolConn, first: PoolConn?, cs: seq<PoolConn>,
                         nexts: seq<PoolConn?>, pres: seq<PoolConn?>)
  {
    && |nexts| == |cs| && |pres| == |cs|
    && (forall i :: 0 <= i < |cs| ==> cs[i] != head)
    && (forall i, j :: 0 <= i < j < |cs| ==> cs[i] != cs[j])
    && first == (if cs == [] then null else cs[0])
    && (forall i :: 0 <= i < |cs| ==> nexts[i] == (if i + 1 < |cs| then cs[i + 1] else null))
    && (forall i :: 0 <= i < |cs| - 1 ==> pres[i] == (if i == 0 then head else cs[i - 1]))
    && (cs != [] ==> pres[|cs| - 1] == null || pres[|cs| - 1] == (if |cs| == 1 then head else cs[|cs| - 2]))
  }

  /** The connections of one address. `Conns` is the list after the sentinel
      `head`, in `next` order. */
  class StreamsPool {
    var head: PoolConn
    var count: int
    var idle: int
    /** The address and the pool this list belongs to. */
    ghost const Addr: string
    ghost const Owner: Pool
    ghost var Conns: seq<PoolConn>
    ghost var Repr: set<object>

    ghost function Nexts(): seq<PoolConn?>
      reads this, set c | c in Conns
    {
      seq(|Conns|, i requires 0 <= i < |Conns| reads this, (set c | c in Conns) => Conns[i].next)
    }

    ghost function Pres(): seq<PoolConn?>
      reads this, set c | c in Conns
    {
      seq(|Conns|, i requires 0 <= i < |Conns| reads this, (set c | c in Conns) => Conns[i].pre)
    }

    /** The links agree with `Conns`, every node belongs to this pool, and
        `count` is the length of the list. */
    ghost predicate Valid()
      reads this, Repr
      ensures Valid() ==> this in Repr
    {
      && this in Repr && head in Repr && head.pre == null
      && (forall i :: 0 <= i < |Conns| ==> Conns[i] in Repr && Conns[i].sp == this)
      && (forall i :: 0 <= i < |Conns| ==> Conns[i].addr == Addr && Conns[i].pool == Owner)
      && Linked(head, head.next, Conns, Nexts(), Pres())
      && count == |Conns|
    }

    /** A valid list whose bookkeeping keeps PoolSpec.Inv under the caps of
        its pool. */
    ghost predicate Good()
      reads this, Repr
    {
      Valid() && Inv(View(), Owner.size, Owner.maxStreams)
    }

    /** The bookkeeping as a value. */
    ghost function View(): Sub
      reads this, Repr
      requires Valid()
    {
      Sub(seq(|Conns|, i requires 0 <= i < |Conns| reads this, (set c | c in Conns) => Conns[i].View()), count, idle)
    }

    /** `&streamsPool{head: &poolConn{}, count: 0, idle: 0}`. */
    constructor (ghost addr: string, ghost owner: Pool)
      ensures Valid() && fresh(Repr) && Conns == [] && View() == Empty && Good()
      ensures Addr == addr && Owner == owner
    {
      head := new PoolConn.Sentinel();
      Addr, Owner := addr, owner;
      count, idle := 0, 0;
      Conns := [];
      new;
      Repr := {this, head};
      EmptyInv(owner.size, owner.maxStreams);
    }

    /** The scan of `getConn`: walks from `head.next` along `next` and stops
        at the first connection with fewer than `maxStreams` streams. */
    method FindFree(maxStreams: int) returns (conn: PoolConn?)
      requires Valid()
      ensures var k := FirstFit(View().conns, maxStreams);
        conn == (if k < |Conns| then Conns[k] else null)
    {
      conn := head.next;
      ghost var i := 0;
      while conn != null && conn.streams >= maxStreams
        invariant 0 <= i <= |Conns|
        invariant conn == (if i < |Conns| then Conns[i] else null)
        invariant forall j :: 0 <= j < i ==> Conns[j].streams >= maxStreams
        decreases |Conns| - i
      {
        assert Nexts()[i] == conn.next;
        conn := conn.next;
        i := i + 1;
      }
      ghost var v := View().conns;
      assert |v| == |Conns| && forall j :: 0 <= j < |Conns| ==> v[j] == Conns[j].View();
      ghost var k := FirstFit(v, maxStreams);
      assert k <= i by {
        if i < |Conns| { assert v[i].streams < maxStreams; }
      }
    }

    /** The hit path of `getConn`: the connection found at `k` leaves the
        idle count if it had no stream, and gets one more stream. */
    method TakeStream(conn: PoolConn, ghost k: nat)
      requires Valid() && k < |Conns| && Conns[k] == conn
      modifies this, conn
      ensures Valid() && Conns == old(Conns) && Repr == old(Repr) && head == old(head)
      ensures conn.streams == old(conn.streams) + 1 && conn.err == old(conn.err)
      ensures View() == Sub(old(View()).conns[k := old(View()).conns[k].(streams := old(conn.streams) + 1)],
                            old(count), if old(conn.streams) == 0 then old(idle) - 1 else old(idle))
    {
      if conn.streams == 0 {
        idle := idle - 1;
      }
      conn.streams := conn.streams + 1;
      FieldsWritten(k);
    }

    /** `getConn` on this address from the scan on (the lookup is
        Pool.LookupOrCreate): a connection found by the scan gets one more
        stream, and leaves the idle count if it had none; otherwise a pool
        with `size` connections refuses, a failed dial is passed on, and a
        dialed connection goes in after the head. */
    method Acquire(size: int, maxStreams: int, dial: DialResult, addr: string, pool: Pool, now: int)
      returns (conn: PoolConn?, err: Option<Error>)
      requires Valid() && Inv(View(), size, maxStreams) && maxStreams >= 1
      requires addr == Addr && pool == Owner
      modifies Repr
      ensures forall c :: c in old(Conns) ==> c.err == old(c.err)
      ensures Valid() && head == old(head) && fresh(Repr - old(Repr))
      ensures var st := AfterGetConn(old(View()), size, maxStreams, dial, now);
        && View() == st.sub
        && (conn == null <==> st.out.Failed?)
        && (st.out.Failed? ==> err == Some(st.out.e) && Conns == old(Conns) && Repr == old(Repr))
        && (st.out.Reused? ==> err == None && Conns == old(Conns) && Repr == old(Repr)
                               && st.out.k < |Conns| && conn == Conns[st.out.k])
        && (st.out.Fresh? ==>
              err == None && fresh(conn) && Conns == [conn] + old(Conns) && Repr == old(Repr) + {conn})
      ensures conn != null ==> conn.sp == this && 1 <= conn.streams <= maxStreams
      ensures conn != null ==> conn.addr == Addr && conn.pool == Owner
    {
      ghost var before := View();
      ghost var st := AfterGetConn(before, size, maxStreams, dial, now);
      ghost var at := FirstFit(before.conns, maxStreams);
      conn := FindFree(maxStreams);
      if conn != null {
        Reuse(conn, at, size, maxStreams, dial, now);
        err := None;
        return;
      }
      assert at == |before.conns|;
      if count >= size {
        assert st == Step(before, Failed(TooManyConnection));
        conn, err := null, Some(TooManyConnection);
        return;
      }
      if dial.DialFailed? {
        assert st == Step(before, Failed(dial.e));
        conn, err := null, Some(dial.e);
        return;
      }
      assert st == Step(Sub([Conn(1, now, false, None)] + before.conns, before.count + 1, before.idle), Fresh);
      conn := PushFresh(dial.cc, addr, pool, now);
      err := None;
    }

    /** The hit path of `getConn` against its specification: taking a
        stream of the first connection with room is what `AfterGetConn`
        prescribes. */
    method Reuse(conn: PoolConn, ghost at: nat, size: int, maxStreams: int, dial: DialResult, now: int)
      requires Valid() && Inv(View(), size, maxStreams)
      requires at == FirstFit(View().conns, maxStreams) && at < |Conns| && Conns[at] == conn
      modifies this, conn
      ensures Valid() && Conns == old(Conns) && Repr == old(Repr) && head == old(head)
      ensures conn.err == old(conn.err) && 1 <= conn.streams <= maxStreams
      ensures var st := AfterGetConn(old(View()), size, maxStreams, dial, now);
        View() == st.sub && st.out == Reused(at)
    {
      ghost var before := View();
      ghost var c := before.conns[at];
      assert c.streams >= 0;
      assert AfterGetConn(before, size, maxStreams, dial, now)
        == Step(Sub(before.conns[at := c.(streams := c.streams + 1)], before.count,
                    if c.streams == 0 then before.idle - 1 else before.idle), Reused(at));
      TakeStream(conn, at);
    }

    /** The dial path of `getConn`: a new connection with one stream, created
        at `now`, goes in right after the sentinel head. */
    method PushFresh(cc: ClientConn, addr: string, pool: Pool, now: int) returns (conn: PoolConn)
      requires Valid() && addr == Addr && pool == Owner
      modifies Repr
      ensures Valid() && head == old(head) && fresh(conn)
      ensures Conns == [conn] + old(Conns) && Repr == old(Repr) + {conn}
      ensures View() == Sub([Conn(1, now, false, None)] + old(View()).conns, old(count) + 1, old(idle))
      ensures conn.sp == this && conn.streams == 1 && conn.addr == Addr && conn.pool == Owner
      ensures forall c :: c in old(Conns) ==> c.err == old(c.err)
    {
      conn := new PoolConn(cc, addr, pool, this, now);
      AddConnAfter(conn, head);
    }

    /** `release` on this address, with the caps of `conn.pool`: one stream
        fewer; a connection left without streams is evicted (`removeConn`,
        then the transport is closed) on an error, a used-up idle budget or
        age above `ttl`, and counted as idle otherwise. */
    method PutBack(conn: PoolConn, err: Option<Error>, maxIdle: int, ttl: int, now: int)
      requires Valid() && conn in Conns && conn.streams >= 1
      modifies Repr
      ensures Valid() && head == old(head) && Repr <= old(Repr)
      ensures View() == AfterRelease(old(View()), IndexOf(old(Conns), conn), err, maxIdle, ttl, now)
      ensures var k := IndexOf(old(Conns), conn);
        var evicted := conn.streams == 0 && Evicts(err, old(idle), maxIdle, now, conn.created, ttl);
        && conn.streams == old(conn.streams) - 1
        && conn.closed == (old(conn.closed) || evicted)
        && Conns == (if evicted && k + 1 < |old(Conns)| then old(Conns)[..k] + old(Conns)[k + 1..]
                     else old(Conns))
      ensures forall c :: c in old(Conns) ==> c.err == old(c.err)
    {
      ghost var k := IndexOf(Conns, conn);
      DropStream(conn, k);
      if conn.streams > 0 {
        return;
      }
      if err.Some? || idle >= maxIdle || now - conn.created > ttl {
        Evict(conn, k);
        return;
      }
      label Kept:
      idle := idle + 1;
      FieldsWritten@Kept(k);
    }

    /** The first step of `release`: the connection at `k` loses a stream. */
    method DropStream(conn: PoolConn, ghost k: nat)
      requires Valid() && k < |Conns| && Conns[k] == conn
      modifies conn
      ensures Valid() && conn.streams == old(conn.streams) - 1 && conn.closed == old(conn.closed)
      ensures conn.err == old(conn.err)
      ensures View() == old(View()).(conns := old(View()).conns[k := old(View()).conns[k].(streams := old(conn.streams) - 1)])
    {
      conn.streams := conn.streams - 1;
      FieldsWritten(k);
    }

    /** The eviction step of `release`: `removeConn`, then the transport of
        the connection at `k` is closed. */
    method Evict(conn: PoolConn, ghost k: nat)
      requires Valid() && k < |Conns| && Conns[k] == conn
      modifies Repr
      ensures Valid() && head == old(head) && Repr <= old(Repr)
      ensures conn.closed && conn.streams == old(conn.streams)
      ensures forall c :: c in old(Conns) ==> c.err == old(c.err)
      ensures k + 1 < |old(Conns)| ==>
        && Conns == old(Conns)[..k] + old(Conns)[k + 1..]
        && View() == Sub(old(View()).conns[..k] + old(View()).conns[k + 1..], old(count) - 1, old(idle))
      ensures k + 1 == |old(Conns)| ==>
        && Conns == old(Conns)
        && View() == old(View()).(conns := old(View()).conns[k := old(View()).conns[k].(closed := true)])
    {
      assert IndexOf(Conns, conn) == k;
      RemoveConn(conn);
      label Removed:
      conn.closed := true;
      if k + 1 == |old(Conns)| {
        FieldsWritten@Removed(k);
      }
    }

    /** What `FieldsWritten` needs: only `idle`, the counters and the flags of
        listed connection `k` have changed. */
    twostate predicate FieldsOnly(k: nat)
      reads this, Repr
    {
      && old(Valid()) && k < |old(Conns)|
      && Conns == old(Conns) && head == old(head) && Repr == old(Repr)
      && count == old(count)
      && unchanged(head)
      && (forall i :: 0 <= i < |Conns| && i != k ==> unchanged(Conns[i]))
      && Conns[k].next == old(Conns[k].next) && Conns[k].pre == old(Conns[k].pre)
    }

    /** Changing `idle`, or the stream counter or closed flag of the listed
        connection at `k`, keeps the list valid and changes the view at `k`. */
    twostate lemma FieldsWritten(k: nat)
      requires FieldsOnly(k)
      ensures Valid()
      ensures View() == Sub(old(View()).conns[k := Conns[k].View()], count, idle)
    {
      assert Nexts() == old(Nexts());
      assert Pres() == old(Pres());
    }

    /** What `PushedFront` needs: `conn` has been linked in right after the
        head and nothing else has changed. */
    twostate predicate Pushed(new conn: PoolConn)
      reads this, Repr
    {
      && old(Valid()) && conn !in old(Repr) && conn in Repr
      && conn.sp == this && conn.addr == Addr && conn.pool == Owner
      && head == old(head) && Conns == [conn] + old(Conns)
      && Repr == old(Repr) + {conn}
      && count == old(count) + 1 && idle == old(idle)
      && head.pre == null && head.next == conn
      && conn.next == old(head.next) && conn.pre == head
      && (old(Conns) != [] ==> old(Conns)[0].pre == conn && old(Conns)[0].next == old(Conns[0].next)
                                  && old(Conns)[0].View() == old(Conns[0].View()))
      && (forall i :: 1 <= i < |old(Conns)| ==> unchanged(old(Conns)[i]))
    }

    twostate lemma PushedFront(new conn: PoolConn)
      requires Pushed(conn)
      ensures Valid()
      ensures View() == old(View()).(conns := [conn.View()] + old(View()).conns,
                                           count := old(count) + 1)
    {
      PushedLinks(conn);
      PushedView(conn);
    }

    twostate lemma PushedLinks(new conn: PoolConn)
      requires Pushed(conn)
      ensures Linked(head, head.next, Conns, Nexts(), Pres())
    {
      var o, n := old(Conns), Conns;
      assert forall i :: 0 < i < |n| ==> n[i] == o[i - 1];
      forall i | 0 <= i < |n|
        ensures Nexts()[i] == (if i + 1 < |n| then n[i + 1] else null)
      {
        if i > 0 {
          assert old(Nexts())[i - 1] == old(o[i - 1].next);
        }
      }
      forall i | 0 <= i < |n| - 1
        ensures Pres()[i] == (if i == 0 then head else n[i - 1])
      {
        if i > 1 {
          assert old(Pres())[i - 1] == old(o[i - 1].pre);
        }
      }
      if |n| > 2 {
        assert old(Pres())[|o| - 1] == old(o[|o| - 1].pre);
      }
    }

    twostate lemma PushedView(new conn: PoolConn)
      requires Pushed(conn)
      requires Linked(head, head.next, Conns, Nexts(), Pres())
      ensures Valid()
      ensures View() == old(View()).(conns := [conn.View()] + old(View()).conns,
                                           count := old(count) + 1)
    {
      var o, n := old(Conns), Conns;
      assert forall i :: 0 < i < |n| ==> n[i] == o[i - 1];
      assert View().conns == [conn.View()] + old(View()).conns;
    }
  }

  /** `addConnAfter`, at its one use: links `conn` in right after the
      sentinel head of its pool and counts it. */
  method AddConnAfter(conn: PoolConn, after: PoolConn)
    requires conn.sp != null && conn.sp.Valid() && conn !in conn.sp.Repr
    requires conn.addr == conn.sp.Addr && conn.pool == conn.sp.Owner
    requires after == conn.sp.head
    modifies conn.sp.Repr, conn
    ensures conn.sp.Valid()
    ensures conn.sp.Conns == [conn] + old(conn.sp.Conns)
    ensures conn.sp.View() == old(conn.sp.View()).(conns := [old(conn.View())] + old(conn.sp.View()).conns,
                                                   count := old(conn.sp.count) + 1)
    ensures conn.sp.Repr == old(conn.sp.Repr) + {conn} && conn.sp.head == old(conn.sp.head)
    ensures conn.View() == old(conn.View())
    ensures forall c :: c in old(conn.sp.Conns) ==> c.err == old(c.err)
  {
    var sp := conn.sp;
    conn.next := after.next;
    conn.pre := after;
    if after.next != null {
      after.next.pre := conn;
    }
    after.next := conn;
    sp.count := sp.count + 1;
    sp.Conns := [conn] + sp.Conns;
    sp.Repr := sp.Repr + {conn};
    sp.PushedFront(conn);
  }

  /** `removeConn`: unlinks `conn` and uncounts it, but only when it has
      both neighbours; otherwise it just clears `conn.pre`. In a valid list
      the second case is exactly the last node, which stays listed. */
  method RemoveConn(conn: PoolConn)
    requires conn.sp != null && conn.sp.Valid() && conn in conn.sp.Conns
    modifies conn.sp.Repr
    ensures conn.sp.Valid()
    ensures var k := IndexOf(old(conn.sp.Conns), conn);
      var unlinked := k + 1 < |old(conn.sp.Conns)|;
      && conn.sp.Conns == (if unlinked then old(conn.sp.Conns)[..k] + old(conn.sp.Conns)[k + 1..]
                           else old(conn.sp.Conns))
      && conn.sp.Repr == (if unlinked then old(conn.sp.Repr) - {conn} else old(conn.sp.Repr))
      && conn.sp.View() == (if unlinked
                            then old(conn.sp.View()).(conns := old(conn.sp.View()).conns[..k]
                                                               + old(conn.sp.View()).conns[k + 1..],
                                                      count := old(conn.sp.count) - 1)
                            else old(conn.sp.View()))
      && (!unlinked ==> conn.pre == null)
    ensures conn.View() == old(conn.View()) && conn.sp.head == old(conn.sp.head)
    ensures forall c :: c in old(conn.sp.Conns) ==> c.err == old(c.err)
  {
    var sp := conn.sp;
    ghost var o, nexts, pres := sp.Conns, sp.Nexts(), sp.Pres();
    ghost var k := IndexOf(o, conn);
    assert nexts[k] == conn.next && pres[k] == conn.pre;
    if conn.next == null || conn.pre == null {
      assert k + 1 == |o|;
      conn.pre := null;
      TailPreCleared(sp);
      return;
    }
    assert k + 1 < |o|;
    SpliceOut(sp, conn, k);
  }

  /** The second half of `removeConn`: the node at `k`, which has both
      neighbours, is unlinked from the list and uncounted. */
  method SpliceOut(sp: StreamsPool, conn: PoolConn, ghost k: nat)
    requires sp.Valid() && k + 1 < |sp.Conns| && sp.Conns[k] == conn
    modifies sp.Repr
    ensures forall c :: c in old(sp.Conns) ==> c.err == old(c.err)
    ensures sp.Valid() && sp.head == old(sp.head)
    ensures sp.Conns == old(sp.Conns)[..k] + old(sp.Conns)[k + 1..]
    ensures sp.Repr == old(sp.Repr) - {conn}
    ensures sp.View() == old(sp.View()).(conns := old(sp.View()).conns[..k] + old(sp.View()).conns[k + 1..],
                                         count := old(sp.count) - 1)
    ensures conn.View() == old(conn.View())
  {
    assert sp.Nexts()[k] == conn.next && sp.Pres()[k] == conn.pre;
    conn.pre.next := conn.next;
    conn.next.pre := conn.pre;
    sp.count := sp.count - 1;
    sp.Conns := sp.Conns[..k] + sp.Conns[k + 1..];
    sp.Repr := sp.Repr - {conn};
    assert conn.View() == old(conn.View());
    conn.Unlinked(k);
  }

  /** Clearing the `pre` link of the last node keeps the list valid. */
  twostate lemma TailPreCleared(sp: StreamsPool)
    requires old(sp.Valid()) && old(sp.Conns) != []
    requires sp.Conns == old(sp.Conns) && sp.head == old(sp.head) && sp.Repr == old(sp.Repr)
    requires sp.count == old(sp.count) && sp.idle == old(sp.idle) && unchanged(sp.head)
    requires forall i :: 0 <= i < |sp.Conns| - 1 ==> unchanged(sp.Conns[i])
    requires var c := sp.Conns[|sp.Conns| - 1];
      c.pre == null && c.next == old(c.next) && c.View() == old(c.View())
    ensures sp.Valid() && sp.View() == old(sp.View())
  {
    var last := |sp.Conns| - 1;
    assert sp.Nexts() == old(sp.Nexts());
    assert sp.Pres() == old(sp.Pres())[last := null];
    assert sp.View().conns == old(sp.View()).conns;
  }

  /** The pool: caps, and one `streamsPool` per address. */
  class Pool {
    const size: int
    const ttl: int
    const maxStreams: int
    const maxIdle: int
    var conns: map<string, StreamsPool>
    /** The objects of every address pool. */
    ghost function Repr(): set<object>
      reads this, conns.Values
    {
      set a, o | a in conns && o in conns[a].Repr :: o
    }

    ghost function ReprOf(addr: string): set<object>
      reads this, conns.Values
    {
      if addr in conns then conns[addr].Repr else {}
    }

    /** Every address pool is valid, keeps the bookkeeping invariant of
        PoolSpec.Inv, and owns its objects alone. */
    ghost predicate Valid()
      reads this, conns.Values, Repr()
    {
      && maxStreams >= 1 && maxIdle >= 0
      && (forall a :: a in conns ==> conns[a].Addr == a && conns[a].Owner == this)
      && (forall a :: a in conns ==> this !in conns[a].Repr)
      && (forall a :: a in conns ==> conns[a].Good())
      && (forall a, b :: a in conns && b in conns && a != b ==> conns[a].Repr !! conns[b].Repr)
    }

    /** The bookkeeping of `addr`, empty for an address not seen yet. */
    ghost function SubView(addr: string): Sub
      reads this, conns.Values, Repr()
      requires Valid()
    {
      if addr in conns then conns[addr].View() else Empty
    }

    ghost function ConnsOf(addr: string): seq<PoolConn>
      reads this, conns.Values
    {
      if addr in conns then conns[addr].Conns else []
    }

    /** `newPool`. */
    constructor (size: int, ttl: int, ms: int, idle: int)
      ensures Options(this.size, this.ttl, maxStreams, maxIdle) == NewOptions(size, ttl, ms, idle)
      ensures conns == map[]
      ensures Valid()
    {
      var streams, idles := ms, idle;
      if streams <= 0 {
        streams := 1;
      }
      if idles <= 0 {
        idles := 0;
      }
      this.size, this.ttl, maxStreams, maxIdle := size, ttl, streams, idles;
      conns := map[];
    }

    /** Lines 71-74 of `getConn` as the source has them: on the first use of
        an address a fresh `streamsPool` is stored, but the `sp` that the scan
        goes on to use is still the failed lookup's nil, so `sp.head` then
        dereferences nil. */
    method LookupAsWritten(addr: string) returns (sp: StreamsPool?)
      requires Valid()
      modifies this
      ensures Valid()
      ensures addr in conns && conns == old(conns)[addr := conns[addr]]
      ensures addr in old(conns) ==> sp == old(conns[addr]) && sp == conns[addr]
      ensures addr !in old(conns) ==> sp == null && fresh(conns[addr]) && conns[addr].View() == Empty
    {
      var ok := addr in conns;
      sp := if ok then conns[addr] else null;
      if !ok {
        var created := new StreamsPool(addr, this);
        conns := conns[addr := created];
      }
    }

    /** Lines 71-74 corrected: the pool that is stored is the one that is
        used. */
    method LookupOrCreate(addr: string) returns (sp: StreamsPool)
      requires Valid()
      modifies this
      ensures Valid()
      ensures addr in conns && sp == conns[addr] && conns == old(conns)[addr := sp]
      ensures addr in old(conns) ==> sp == old(conns[addr])
      ensures addr !in old(conns) ==> fresh(sp.Repr) && sp.Conns == []
      ensures fresh(Repr() - old(Repr()))
      ensures sp.Good() && sp.Addr == addr && sp.Owner == this && this !in sp.Repr
      ensures sp.View() == old(SubView(addr)) && sp.Conns == old(ConnsOf(addr))
    {
      if addr in conns {
        sp := conns[addr];
        assert sp.Good();
      } else {
        sp := new StreamsPool(addr, this);
        conns := conns[addr := sp];
      }
    }

    /** `getConn`: hands out the first listed connection with a free stream
        slot, or dials a new one and puts it at the front, or fails. It is
        built on the corrected lookup `LookupOrCreate`: for an address already
        in `conns` it is the code as written, while on the first use of an
        address the code as written scans through nil (see `LookupAsWritten`)
        and this method scans the freshly stored, empty list instead. */
    method GetConn(addr: string, dial: DialResult, now: int) returns (conn: PoolConn?, err: Option<Error>)
      requires Valid()
      modifies this, ReprOf(addr)
      ensures Valid()
      ensures fresh(Repr() - old(Repr()))
      ensures addr in conns && conns == old(conns)[addr := conns[addr]]
      ensures addr in old(conns) ==> conns[addr] == old(conns[addr])
      ensures conns[addr].Valid()
      ensures var st := AfterGetConn(old(SubView(addr)), size, maxStreams, dial, now);
        && conns[addr].View() == st.sub
        && (conn == null <==> st.out.Failed?)
        && (st.out.Failed? ==> err == Some(st.out.e) && conns[addr].Conns == old(ConnsOf(addr)))
        && (st.out.Reused? ==> err == None && conns[addr].Conns == old(ConnsOf(addr))
                               && st.out.k < |conns[addr].Conns| && conn == conns[addr].Conns[st.out.k])
        && (st.out.Fresh? ==> err == None && fresh(conn) && conns[addr].Conns == [conn] + old(ConnsOf(addr)))
      ensures conn != null ==> conn.sp == conns[addr] && 1 <= conn.streams <= maxStreams
      ensures conn != null ==> conn.addr == addr && conn.pool == this
      ensures forall c :: c in old(ConnsOf(addr)) ==> c.err == old(c.err)
    {
      var sp := LookupOrCreate(addr);
      label Looked:
      conn, err := AcquireIn(sp, addr, dial, now);
      assert old(ConnsOf(addr)) == old@Looked(sp.Conns) && old(SubView(addr)) == old@Looked(sp.View());
      assert fresh(Repr() - old@Looked(Repr()));
    }

    /** `getConn` from the scan on, for the list `sp` stored for `addr`. */
    method AcquireIn(sp: StreamsPool, addr: string, dial: DialResult, now: int)
      returns (conn: PoolConn?, err: Option<Error>)
      requires Valid() && addr in conns && sp == conns[addr]
      requires sp.Good() && sp.Addr == addr && sp.Owner == this && this !in sp.Repr
      modifies sp.Repr
      ensures Valid()
      ensures fresh(Repr() - old(Repr()))
      ensures conns == old(conns)
      ensures sp.Valid()
      ensures var st := AfterGetConn(old(sp.View()), size, maxStreams, dial, now);
        && sp.View() == st.sub
        && (conn == null <==> st.out.Failed?)
        && (st.out.Failed? ==> err == Some(st.out.e) && sp.Conns == old(sp.Conns))
        && (st.out.Reused? ==> err == None && sp.Conns == old(sp.Conns)
                               && st.out.k < |sp.Conns| && conn == sp.Conns[st.out.k])
        && (st.out.Fresh? ==> err == None && fresh(conn) && sp.Conns == [conn] + old(sp.Conns))
      ensures conn != null ==> conn.sp == sp && 1 <= conn.streams <= maxStreams
      ensures conn != null ==> conn.addr == addr && conn.pool == this
      ensures forall c :: c in old(sp.Conns) ==> c.err == old(c.err)
    {
      AfterGetConnPreservesInv(sp.View(), size, maxStreams, dial, now);
      conn, err := sp.Acquire(size, maxStreams, dial, addr, this, now);
      OneAddressChanged(addr);
    }

    /** `release`: gives back one stream of `conn`; when none is left the
        connection is evicted (unlinked by `removeConn` and closed) or
        counted as idle. The caps used are those of `conn.pool`. */
    method Release(addr: string, conn: PoolConn, err: Option<Error>, now: int)
      requires Valid()
      requires conn.pool == this && conn.sp != null && conn.sp in conns.Values
      requires conn in conn.sp.Conns && conn.streams >= 1
      modifies conn.sp.Repr
      ensures Valid() && Repr() <= old(Repr())
      ensures conn.sp.View() == AfterRelease(old(conn.sp.View()), IndexOf(old(conn.sp.Conns), conn),
                                             err, maxIdle, ttl, now)
      ensures var k := IndexOf(old(conn.sp.Conns), conn);
        var evicted := conn.streams == 0 && Evicts(err, old(conn.sp.idle), maxIdle, now, conn.created, ttl);
        && conn.streams == old(conn.streams) - 1
        && conn.closed == (old(conn.closed) || evicted)
        && conn.sp.Conns == (if evicted && k + 1 < |old(conn.sp.Conns)|
                             then old(conn.sp.Conns)[..k] + old(conn.sp.Conns)[k + 1..]
                             else old(conn.sp.Conns))
      ensures forall c :: c in old(conn.sp.Conns) ==> c.err == old(c.err)
    {
      var p, sp := conn.pool, conn.sp;
      ghost var k := IndexOf(sp.Conns, conn);
      ghost var a := sp.Addr;
      assert a in conns && conns[a] == sp;
      AfterReleasePreservesInv(sp.View(), k, err, p.maxIdle, p.ttl, now, size, maxStreams);
      label Before:
      sp.PutBack(conn, err, p.maxIdle, p.ttl, now);
      OneAddressChanged@Before(a);
    }

    /** Changing the objects of one address, and adding new ones to it,
        keeps the pool valid as long as that address's list is still good. */
    twostate lemma OneAddressChanged(addr: string)
      requires old(Valid()) && addr in old(conns) && conns == old(conns)
      requires conns[addr].Good() && this !in conns[addr].Repr
      requires fresh(conns[addr].Repr - old(conns[addr].Repr))
      requires forall a :: a in conns && a != addr ==> unchanged(conns[a]) && unchanged(conns[a].Repr)
      ensures Valid()
    {
    }
  }

  /** A good list stays good while none of its objects changes. */
  twostate lemma GoodKept(sp: StreamsPool)
    requires old(sp.Good()) && unchanged(sp) && unchanged(sp.Repr)
    ensures sp.Good()
  {
  }

  /** The first use of an address under the code as written: the pool the
      scan reads is nil. */
  method FirstUseLeavesNil() returns (isNil: bool)
    ensures isNil
  {
    var p := new Pool(1, 60, 1, 1);
    var sp := p.LookupAsWritten("A");
    isNil := sp == null;
  }
}
