/** Value-level model of the bookkeeping that the gRPC client pool keeps per
    address: the list of connections (as their stream counters, creation
    times, closed flags and recorded errors), the `count` and the `idle`
    counter, and what `getConn` and `release` do to them. The classes in module GrpcPool are proved to
    follow these functions step by step. */
module PoolSpec {

  datatype Option<T> = None | Some(value: T)

  /** An error value: the pool's own `tooManyConnection`, or any other error
      (a dial failure, a transport fault handed to `release`). */
  datatype Error = TooManyConnection | Failure(reason: string)

  /** The opaque transport handle that a successful dial yields. */
  datatype ClientConn = ClientConn(id: nat)

  /** What dialing the address would do; the dial itself is not modelled. */
  datatype DialResult = Dialed(cc: ClientConn) | DialFailed(e: Error)

  /** The caps of a pool; `ttl` is in whole seconds. */
  datatype Options = Options(size: int, ttl: int, maxStreams: int, maxIdle: int)

  /** The option normalisation of `newPool`: a stream cap below one becomes one,
      an idle cap below zero becomes zero; `size` and `ttl` are kept as given. */
  function NewOptions(size: int, ttl: int, ms: int, idle: int): (o: Options)
    ensures o.size == size && o.ttl == ttl
    ensures o.maxStreams >= 1 && o.maxIdle >= 0
    ensures ms >= 1 ==> o.maxStreams == ms
    ensures ms < 1 ==> o.maxStreams == 1
    ensures idle >= 0 ==> o.maxIdle == idle
    ensures idle < 0 ==> o.maxIdle == 0
  {
    Options(size, ttl, if ms <= 0 then 1 else ms, if idle <= 0 then 0 else idle)
  }

  /** One listed connection, as far as the bookkeeping is concerned; `err`
      is the error recorded on it, which `poolConn.Close` passes on. */
  datatype Conn = Conn(streams: int, created: int, closed: bool, err: Option<Error>)

  /** One address's `streamsPool`: its connections in list order (the first is
      the one right after the sentinel head), `count` and `idle`. */
  datatype Sub = Sub(conns: seq<Conn>, count: int, idle: int)

  /** How `getConn` ended: it handed out the listed connection at index `k`,
      it dialed a new one (now at index 0), or it failed with `e`. */
  datatype Outcome = Reused(k: nat) | Fresh | Failed(e: Error)

  datatype Step = Step(sub: Sub, out: Outcome)

  const Empty := Sub([], 0, 0)

  /** Index of the first connection with spare stream capacity, or |cs| if
      there is none: the first-fit rule of the scan in `getConn`. */
  function FirstFit(cs: seq<Conn>, maxStreams: int): (k: nat)
    ensures k <= |cs|
    ensures forall j :: 0 <= j < k ==> cs[j].streams >= maxStreams
    ensures k < |cs| ==> cs[k].streams < maxStreams
  {
    if cs == [] then 0
    else if cs[0].streams < maxStreams then 0
    else 1 + FirstFit(cs[1..], maxStreams)
  }

  /** The state and outcome of `getConn` on an address whose pool is `s`.
      A connection found by the scan gets one more stream (and leaves the
      idle count if it had none); otherwise the pool refuses when `count`
      has reached `size`, passes on a dial failure, or puts the dialed
      connection at the front with one stream. */
  function AfterGetConn(s: Sub, size: int, maxStreams: int, dial: DialResult, now: int): Step
  {
    var k := FirstFit(s.conns, maxStreams);
    if k < |s.conns| then
      var c := s.conns[k];
      var idle := if c.streams == 0 then s.idle - 1 else s.idle;
      Step(Sub(s.conns[k := c.(streams := c.streams + 1)], s.count, idle), Reused(k))
    else if s.count >= size then
      Step(s, Failed(TooManyConnection))
    else
      match dial
      case DialFailed(e) => Step(s, Failed(e))
      case Dialed(_) => Step(Sub([Conn(1, now, false, None)] + s.conns, s.count + 1, s.idle), Fresh)
  }

  /** The eviction test of `release` for a connection that has just lost its
      last stream. */
  predicate Evicts(err: Option<Error>, idle: int, maxIdle: int, now: int, created: int, ttl: int)
  {
    err.Some? || idle >= maxIdle || now - created > ttl
  }

  /** The state after `release` of the listed connection at index `k`.
      Eviction calls `removeConn`, which unlinks only a node that has a
      successor: the last node stays in the list, closed. */
  function AfterRelease(s: Sub, k: nat, err: Option<Error>, maxIdle: int, ttl: int, now: int): Sub
    requires k < |s.conns|
  {
    var c := s.conns[k].(streams := s.conns[k].streams - 1);
    if c.streams > 0 then
      s.(conns := s.conns[k := c])
    else if Evicts(err, s.idle, maxIdle, now, c.created, ttl) then
      if k + 1 < |s.conns| then
        Sub(s.conns[..k] + s.conns[k + 1..], s.count - 1, s.idle)
      else
        s.(conns := s.conns[k := c.(closed := true)])
    else
      Sub(s.conns[k := c], s.count, s.idle + 1)
  }

  function Zero(c: Conn): nat
  {
    if c.streams == 0 then 1 else 0
  }

  /** Number of listed connections that carry no stream. */
  function ZeroCount(cs: seq<Conn>): nat
  {
    if cs == [] then 0 else Zero(cs[0]) + ZeroCount(cs[1..])
  }

  lemma {:induction false} ZeroCountAtMost(cs: seq<Conn>)
    ensures ZeroCount(cs) <= |cs|
  {
    if cs != [] {
      ZeroCountAtMost(cs[1..]);
    }
  }

  lemma {:induction false} ZeroCountUpdate(cs: seq<Conn>, k: nat, c: Conn)
    requires k < |cs|
    ensures ZeroCount(cs[k := c]) == ZeroCount(cs) - Zero(cs[k]) + Zero(c)
  {
    if k > 0 {
      assert cs[k := c][1..] == cs[1..][k - 1 := c];
      ZeroCountUpdate(cs[1..], k - 1, c);
    }
  }

  lemma {:induction false} ZeroCountRemove(cs: seq<Conn>, k: nat)
    requires k < |cs|
    ensures ZeroCount(cs[..k] + cs[k + 1..]) == ZeroCount(cs) - Zero(cs[k])
  {
    if k == 0 {
      assert cs[..0] + cs[1..] == cs[1..];
    } else {
      var rest := cs[1..];
      assert (cs[..k] + cs[k + 1..])[1..] == rest[..k - 1] + rest[k..];
      ZeroCountRemove(rest, k - 1);
    }
  }

  /** What stays true of one address's bookkeeping under `getConn` and
      correctly paired `release` calls: `count` is the list length and within
      `size`, every stream counter lies in [0, maxStreams], and `idle` never
      exceeds the number of stream-free listed connections. There is no lower
      bound on `idle` (see IdleCanGoNegative). */
  ghost predicate Inv(s: Sub, size: int, maxStreams: int)
  {
    && s.count == |s.conns|
    && (s.count == 0 || s.count <= size)
    && (forall i :: 0 <= i < |s.conns| ==> 0 <= s.conns[i].streams <= maxStreams)
    && s.idle <= ZeroCount(s.conns)
  }

  lemma EmptyInv(size: int, maxStreams: int)
    ensures Inv(Empty, size, maxStreams)
  {
  }

  /** `idle <= count` is a consequence of the invariant. */
  lemma IdleAtMostCount(s: Sub, size: int, maxStreams: int)
    requires Inv(s, size, maxStreams)
    ensures s.idle <= s.count
  {
    ZeroCountAtMost(s.conns);
  }

  lemma AfterGetConnPreservesInv(s: Sub, size: int, maxStreams: int, dial: DialResult, now: int)
    requires Inv(s, size, maxStreams) && maxStreams >= 1
    ensures Inv(AfterGetConn(s, size, maxStreams, dial, now).sub, size, maxStreams)
  {
    var k := FirstFit(s.conns, maxStreams);
    if k < |s.conns| {
      var c := s.conns[k];
      ZeroCountUpdate(s.conns, k, c.(streams := c.streams + 1));
    } else if s.count < size && dial.Dialed? {
      var cs := [Conn(1, now, false, None)] + s.conns;
      assert cs[1..] == s.conns;
    }
  }

  lemma AfterReleasePreservesInv(s: Sub, k: nat, err: Option<Error>, maxIdle: int, ttl: int, now: int,
                                 size: int, maxStreams: int)
    requires Inv(s, size, maxStreams)
    requires k < |s.conns| && s.conns[k].streams >= 1
    ensures Inv(AfterRelease(s, k, err, maxIdle, ttl, now), size, maxStreams)
  {
    var c := s.conns[k].(streams := s.conns[k].streams - 1);
    if c.streams > 0 {
      ZeroCountUpdate(s.conns, k, c);
    } else if Evicts(err, s.idle, maxIdle, now, c.created, ttl) {
      if k + 1 < |s.conns| {
        ZeroCountRemove(s.conns, k);
        var r := s.conns[..k] + s.conns[k + 1..];
        forall i | 0 <= i < |r| ensures 0 <= r[i].streams <= maxStreams {
          if i < k { assert r[i] == s.conns[i]; } else { assert r[i] == s.conns[i + 1]; }
        }
      } else {
        ZeroCountUpdate(s.conns, k, c.(closed := true));
      }
    } else {
      ZeroCountUpdate(s.conns, k, c);
    }
  }

  /** The hit path of `getConn`: it happens exactly when some connection has
      spare capacity; the chosen one is the first such in list order, gains
      exactly one stream and then holds between 1 and maxStreams streams;
      `idle` drops by one exactly when it had none; the list length, `count`
      and every other connection are unchanged. */
  lemma GetConnHit(s: Sub, size: int, maxStreams: int, dial: DialResult, now: int)
    requires Inv(s, size, maxStreams)
    ensures var st := AfterGetConn(s, size, maxStreams, dial, now);
      st.out.Reused? <==> exists j :: 0 <= j < |s.conns| && s.conns[j].streams < maxStreams
    ensures var st := AfterGetConn(s, size, maxStreams, dial, now);
      st.out.Reused? ==>
        var k := st.out.k;
        && k < |s.conns|
        && s.conns[k].streams < maxStreams
        && (forall j :: 0 <= j < k ==> s.conns[j].streams >= maxStreams)
        && |st.sub.conns| == |s.conns|
        && st.sub.conns[k] == s.conns[k].(streams := s.conns[k].streams + 1)
        && 1 <= st.sub.conns[k].streams <= maxStreams
        && (forall j :: 0 <= j < |s.conns| && j != k ==> st.sub.conns[j] == s.conns[j])
        && st.sub.count == s.count
        && st.sub.idle == (if s.conns[k].streams == 0 then s.idle - 1 else s.idle)
  {
    var k := FirstFit(s.conns, maxStreams);
    if exists j :: 0 <= j < |s.conns| && s.conns[j].streams < maxStreams {
      var j :| 0 <= j < |s.conns| && s.conns[j].streams < maxStreams;
      assert k <= j;
    }
  }

  /** The miss path of `getConn`: when no listed connection has spare
      capacity, a full pool refuses with `tooManyConnection` and a failed dial
      returns the dial error, both leaving the state as it was; a successful
      dial puts a connection with one stream, created now, at the front, and
      adds one to `count` while `idle` stays. */
  lemma GetConnMiss(s: Sub, size: int, maxStreams: int, dial: DialResult, now: int)
    requires forall j :: 0 <= j < |s.conns| ==> s.conns[j].streams >= maxStreams
    ensures var st := AfterGetConn(s, size, maxStreams, dial, now);
      if s.count >= size then st == Step(s, Failed(TooManyConnection))
      else if dial.DialFailed? then st == Step(s, Failed(dial.e))
      else st.out == Fresh && st.sub == Sub([Conn(1, now, false, None)] + s.conns, s.count + 1, s.idle)
  {
    assert FirstFit(s.conns, maxStreams) == |s.conns|;
  }

  /** Whatever `getConn` hands out carries between 1 and maxStreams streams. */
  lemma GetConnStreamsBounded(s: Sub, size: int, maxStreams: int, dial: DialResult, now: int)
    requires Inv(s, size, maxStreams) && maxStreams >= 1
    ensures var st := AfterGetConn(s, size, maxStreams, dial, now);
      && (st.out.Reused? ==> st.out.k < |st.sub.conns| && 1 <= st.sub.conns[st.out.k].streams <= maxStreams)
      && (st.out.Fresh? ==> |st.sub.conns| > 0 && st.sub.conns[0].streams == 1 <= maxStreams)
      && (st.out.Failed? ==> st.sub == s)
  {
    GetConnHit(s, size, maxStreams, dial, now);
  }

  /** A `release` that leaves the connection with streams takes one stream
      off it and changes nothing else. */
  lemma ReleaseBusy(s: Sub, k: nat, err: Option<Error>, maxIdle: int, ttl: int, now: int)
    requires k < |s.conns| && s.conns[k].streams > 1
    ensures var r := AfterRelease(s, k, err, maxIdle, ttl, now);
      && |r.conns| == |s.conns|
      && r.conns[k] == s.conns[k].(streams := s.conns[k].streams - 1)
      && (forall j :: 0 <= j < |s.conns| && j != k ==> r.conns[j] == s.conns[j])
      && r.count == s.count && r.idle == s.idle
  {
  }

  /** A `release` that takes the last stream either retains the connection,
      adding one to `idle` with list and `count` unchanged, or, exactly when
      there was an error, the idle budget was used up or the connection is
      older than `ttl`, evicts it: a connection with a successor leaves the
      list and `count` drops by one; the last connection stays listed,
      closed, and `count` stays. Eviction never changes `idle`. */
  lemma ReleaseLast(s: Sub, k: nat, err: Option<Error>, maxIdle: int, ttl: int, now: int)
    requires k < |s.conns| && s.conns[k].streams == 1
    ensures var r := AfterRelease(s, k, err, maxIdle, ttl, now);
      var evict := err.Some? || s.idle >= maxIdle || now - s.conns[k].created > ttl;
      && (!evict <==> r.idle == s.idle + 1)
      && (evict <==> r.idle == s.idle)
      && (!evict ==> r.conns == s.conns[k := s.conns[k].(streams := 0)] && r.count == s.count)
      && (evict && k + 1 < |s.conns| ==>
            r.conns == s.conns[..k] + s.conns[k + 1..] && r.count == s.count - 1)
      && (evict && k + 1 == |s.conns| ==>
            r.conns == s.conns[k := s.conns[k].(streams := 0, closed := true)] && r.count == s.count)
  {
  }

  /** A `release` of the last stream with an error never retains the
      connection as idle: it is either out of the list or closed. (An error
      on a connection that still holds other streams is not acted on; see
      ErrorOnBusyConnectionForgotten.) */
  lemma ReleaseWithError(s: Sub, k: nat, e: Error, maxIdle: int, ttl: int, now: int)
    requires k < |s.conns| && s.conns[k].streams == 1
    ensures var r := AfterRelease(s, k, Some(e), maxIdle, ttl, now);
      && r.idle == s.idle
      && (k + 1 < |s.conns| ==> |r.conns| == |s.conns| - 1 && r.count == s.count - 1)
      && (k + 1 == |s.conns| ==> r.conns[k].closed && r.conns[k].streams == 0 && r.count == s.count)
  {
  }

  /** Round trip: taking a stream with `getConn` and giving it back with an
      error-free `release` that does not evict puts the connection back where
      it was, so the next `getConn` hands out the same connection again and
      the bookkeeping is exactly what the first `getConn` left. */
  lemma ReleaseThenGetConnAgain(s: Sub, size: int, maxStreams: int, maxIdle: int, ttl: int,
                                dial: DialResult, dial2: DialResult, now: int, now2: int, now3: int)
    requires Inv(s, size, maxStreams) && maxStreams >= 1
    requires !AfterGetConn(s, size, maxStreams, dial, now).out.Failed?
    ensures var st := AfterGetConn(s, size, maxStreams, dial, now);
      var k := if st.out.Reused? then st.out.k else 0;
      k < |st.sub.conns| &&
      var c := st.sub.conns[k];
      (c.streams > 1 || !Evicts(None, st.sub.idle, maxIdle, now2, c.created, ttl)) ==>
        AfterGetConn(AfterRelease(st.sub, k, None, maxIdle, ttl, now2), size, maxStreams, dial2, now3)
          == Step(st.sub, Reused(k))
  {
    var st := AfterGetConn(s, size, maxStreams, dial, now);
    GetConnHit(s, size, maxStreams, dial, now);
    GetConnStreamsBounded(s, size, maxStreams, dial, now);
    var k := if st.out.Reused? then st.out.k else 0;
    var c := st.sub.conns[k];
    if c.streams > 1 || !Evicts(None, st.sub.idle, maxIdle, now2, c.created, ttl) {
      ReleaseKeepsFirstFit(st.sub, k, size, maxStreams, maxIdle, ttl, dial2, now2, now3);
    }
  }

  /** The second half of the round trip: releasing a stream of the first
      connection with room, when that does not evict it, leaves it the first
      with room, and taking the stream again restores the state. */
  lemma ReleaseKeepsFirstFit(t: Sub, k: nat, size: int, maxStreams: int, maxIdle: int, ttl: int,
                             dial: DialResult, now: int, now2: int)
    requires k < |t.conns| && 1 <= t.conns[k].streams <= maxStreams
    requires forall j :: 0 <= j < k ==> t.conns[j].streams >= maxStreams
    requires var c := t.conns[k]; c.streams > 1 || !Evicts(None, t.idle, maxIdle, now, c.created, ttl)
    ensures AfterGetConn(AfterRelease(t, k, None, maxIdle, ttl, now), size, maxStreams, dial, now2)
      == Step(t, Reused(k))
  {
    var c := t.conns[k];
    var r := AfterRelease(t, k, None, maxIdle, ttl, now);
    assert r.conns == t.conns[k := c.(streams := c.streams - 1)];
    FirstFitAt(r.conns, k, maxStreams);
    assert r.conns[k := c] == t.conns;
  }

  /** The scan stops at the first connection with room. */
  lemma {:induction false} FirstFitAt(cs: seq<Conn>, k: nat, maxStreams: int)
    requires k < |cs| && cs[k].streams < maxStreams
    requires forall j :: 0 <= j < k ==> cs[j].streams >= maxStreams
    ensures FirstFit(cs, maxStreams) == k
  {
    if k > 0 {
      FirstFitAt(cs[1..], k - 1, maxStreams);
    }
  }
}

/** Worked scenarios on one address, from an empty pool. */
module PoolScenarios {
  import opened PoolSpec

  /** With one connection allowed and no idle budget, the last stream of the
      only connection is released: eviction reaches `removeConn`'s nil-link
      branch, so the connection stays listed, closed and stream-free, and the
      next `getConn` hands that closed connection out again, taking `idle`
      below zero. */
  lemma IdleCanGoNegative(cc: ClientConn, dial: DialResult, now: int)
    ensures var s1 := AfterGetConn(Empty, 1, 1, Dialed(cc), now).sub;
      var s2 := AfterRelease(s1, 0, None, 0, 60, now);
      var st3 := AfterGetConn(s2, 1, 1, dial, now);
      && s1 == Sub([Conn(1, now, false, None)], 1, 0)
      && s2 == Sub([Conn(0, now, true, None)], 1, 0)
      && st3 == Step(Sub([Conn(1, now, true, None)], 1, -1), Reused(0))
  {
  }

  /** `size` 1 and one stream per connection: a second `getConn` while the
      first stream is held is refused and changes nothing. */
  lemma SecondGetConnRefused(cc: ClientConn, dial: DialResult, now: int, now2: int)
    ensures var s1 := AfterGetConn(Empty, 1, 1, Dialed(cc), now).sub;
      AfterGetConn(s1, 1, 1, dial, now2) == Step(s1, Failed(TooManyConnection))
  {
  }

  /** `size` 2 and two streams per connection: streams are packed onto the
      first connection with room, a second connection is dialed only once
      the first is full, it goes in front, and the fifth request is refused. */
  lemma TwoByTwo(cc: ClientConn, t1: int, t2: int, t3: int, t4: int, t5: int)
    ensures var d := Dialed(cc);
      var st1 := AfterGetConn(Empty, 2, 2, d, t1);
      var st2 := AfterGetConn(st1.sub, 2, 2, d, t2);
      var st3 := AfterGetConn(st2.sub, 2, 2, d, t3);
      var st4 := AfterGetConn(st3.sub, 2, 2, d, t4);
      var st5 := AfterGetConn(st4.sub, 2, 2, d, t5);
      && st1.out == Fresh && st2.out == Reused(0) && st3.out == Fresh && st4.out == Reused(0)
      && st5 == Step(Sub([Conn(2, t3, false, None), Conn(2, t1, false, None)], 2, 0), Failed(TooManyConnection))
  {
  }

  /** An error `release` of the only connection closes it but, as the node
      has no successor, leaves it listed and counted. */
  lemma ErrorReleaseOfOnlyConnection(cc: ClientConn, e: Error, maxIdle: int, ttl: int, now: int, now2: int)
    ensures var s1 := AfterGetConn(Empty, 1, 1, Dialed(cc), now).sub;
      AfterRelease(s1, 0, Some(e), maxIdle, ttl, now2) == Sub([Conn(0, now, true, None)], 1, 0)
  {
  }

  /** An error reported on one of two streams of a connection is forgotten:
      the first release returns before the eviction test, nothing records the
      error on the node, and the error-free release of the other stream keeps
      the faulted connection as idle. */
  lemma ErrorOnBusyConnectionForgotten(e: Error, now: int)
    ensures var s := Sub([Conn(2, now, false, None)], 1, 0);
      AfterRelease(AfterRelease(s, 0, Some(e), 1, 60, now), 0, None, 1, 60, now)
        == Sub([Conn(0, now, false, None)], 1, 1)
  {
  }

  /** Two streams per connection, one idle slot, a ttl of 60 seconds: the
      only stream is released within the ttl, the connection is kept and
      counted idle, and the next `getConn` takes that same connection back
      out of the idle count. */
  lemma ReleaseThenReuse(cc: ClientConn, dial: DialResult, now: int, d: int)
    requires 0 <= d <= 60
    ensures var s1 := AfterGetConn(Empty, 2, 2, Dialed(cc), now).sub;
      var s2 := AfterRelease(s1, 0, None, 1, 60, now + d);
      && s2 == Sub([Conn(0, now, false, None)], 1, 1)
      && AfterGetConn(s2, 2, 2, dial, now + d) == Step(Sub([Conn(1, now, false, None)], 1, 0), Reused(0))
  {
  }
}
