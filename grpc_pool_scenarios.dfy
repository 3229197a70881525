/** A worked scenario on the objects of module GrpcPool, checked against the
    value-level scenario PoolScenarios.IdleCanGoNegative. */
module GrpcPoolScenarios {
  import opened PoolSpec
  import PoolScenarios
  import opened GrpcPool

  /** On a pool with one connection, one stream each and no idle budget:
      the release of the only stream closes the connection but leaves it
      listed, and the next `getConn` hands the same, closed connection out
      again while `idle` drops to -1. */
  method ClosedConnReused() returns (sameConn: bool, closed: bool, idle: int)
    ensures sameConn && closed && idle == -1
  {
    PoolScenarios.IdleCanGoNegative(ClientConn(0), Dialed(ClientConn(1)), 0);
    var p := new Pool(1, 60, 1, 0);
    var sp := new StreamsPool("A", p);
    var c1, e1 := sp.Acquire(1, 1, Dialed(ClientConn(0)), "A", p, 0);
    assert sp.View() == Sub([Conn(1, 0, false, None)], 1, 0) && sp.Conns == [c1];
    assert IndexOf(sp.Conns, c1) == 0;
    sp.PutBack(c1, None, 0, 60, 0);
    assert sp.View() == Sub([Conn(0, 0, true, None)], 1, 0) && sp.Conns == [c1];
    assert Inv(sp.View(), 1, 1);
    var c2, e2 := sp.Acquire(1, 1, Dialed(ClientConn(1)), "A", p, 0);
    assert sp.Conns == [c1] && c2 == c1 && sp.View().conns[0] == c1.View();
    sameConn, closed, idle := c1 == c2, c2.closed, sp.idle;
  }
}
