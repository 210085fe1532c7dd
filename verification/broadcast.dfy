/** The server's `broadcast`: fan-out of one message over the registered connections,
    evicting every connection whose `send` fails while the iteration is still running. */
module ServerBroadcast {
  import opened Wrappers
  import opened Sequences

  /** An accepted connection, standing for the socket object of the source. */
  type ClientId = nat

  /** The outcome of one broadcast: the connections that were sent the message, in
      order, and the connections whose `send` failed and that were closed and dropped. */
  datatype Fan = Fan(delivered: seq<ClientId>, evicted: seq<ClientId>)

  /** The connections a failure-free broadcast reaches: everybody but the excluded one. */
  function Others(cs: seq<ClientId>, from: Option<ClientId>): seq<ClientId> {
    match from
    case None => cs
    case Some(x) => Without(cs, x)
  }

  /** The part of the list a Python list iterator standing at index `i` has yet to visit. */
  function Rest(cs: seq<ClientId>, i: nat): seq<ClientId> {
    if i <= |cs| then cs[i..] else []
  }

  /** Reference definition of the fan-out over the list as it was when the broadcast
      started. A failing connection is removed from the list being iterated, which moves
      its successor under the iterator's back: that successor is not visited at all. */
  function Fanout(cs: seq<ClientId>, from: Option<ClientId>, failing: set<ClientId>): (f: Fan)
    ensures |f.delivered| + |f.evicted| <= |cs|
    decreases |cs|
  {
    if |cs| == 0 then Fan([], [])
    else if Some(cs[0]) == from then Fanout(cs[1..], from, failing)
    else if cs[0] in failing then
      var rest := Fanout(Rest(cs, 2), from, failing);
      Fan(rest.delivered, [cs[0]] + rest.evicted)
    else
      var rest := Fanout(cs[1..], from, failing);
      Fan([cs[0]] + rest.delivered, rest.evicted)
  }

  /** `broadcast(message, _from_client)` as written: a list iterator over `clients`,
      which the loop body shrinks whenever a `send` fails. `failing` is the set of
      connections whose `send` raises. */
  method Broadcast(clients: seq<ClientId>, from: Option<ClientId>, failing: set<ClientId>)
    returns (remaining: seq<ClientId>, delivered: seq<ClientId>, evicted: seq<ClientId>)
    ensures Fan(delivered, evicted) == Fanout(clients, from, failing)
    ensures remaining == RemoveAll(clients, evicted)
  {
    var cs := clients;
    var i := 0;
    delivered, evicted := [], [];
    ResumeStart(clients, from, failing);
    while i < |cs|
      invariant cs == RemoveAll(clients, evicted)
      invariant Resume(cs, i, from, failing, delivered, evicted) == Fanout(clients, from, failing)
      decreases |cs| - i
    {
      var c := cs[i];
      i := i + 1;
      if Some(c) != from {
        if c in failing {
          // the failing connection is closed and its first occurrence is dropped
          ResumeEvict(cs, i, from, failing, delivered, evicted);
          RemoveAllSnoc(clients, evicted, c);
          cs := RemoveFirst(cs, c);
          evicted := evicted + [c];
        } else {
          ResumeDeliver(cs, i, from, failing, delivered, evicted);
          delivered := delivered + [c];
        }
      } else {
        ResumeExcluded(cs, i, from, failing, delivered, evicted);
      }
    }
    ResumeEnd(cs, i, from, failing, delivered, evicted);
    remaining := cs;
  }

  /** The fan-out of a broadcast that has already delivered to `delivered` and evicted
      `evicted`, and whose iterator stands at index `i` of the current list `cs`. */
  ghost function Resume(cs: seq<ClientId>, i: nat, from: Option<ClientId>, failing: set<ClientId>,
                        delivered: seq<ClientId>, evicted: seq<ClientId>): Fan
  {
    var f := Fanout(Rest(cs, i), from, failing);
    Fan(delivered + f.delivered, evicted + f.evicted)
  }

  lemma ResumeStart(cs: seq<ClientId>, from: Option<ClientId>, failing: set<ClientId>)
    ensures Resume(cs, 0, from, failing, [], []) == Fanout(cs, from, failing)
  {
    assert Rest(cs, 0) == cs;
  }

  lemma ResumeEnd(cs: seq<ClientId>, i: nat, from: Option<ClientId>, failing: set<ClientId>,
                  delivered: seq<ClientId>, evicted: seq<ClientId>)
    requires i >= |cs|
    ensures Resume(cs, i, from, failing, delivered, evicted) == Fan(delivered, evicted)
  {
    assert Rest(cs, i) == [];
  }

  /** The iterator passes over the excluded connection. */
  lemma ResumeExcluded(cs: seq<ClientId>, i: nat, from: Option<ClientId>, failing: set<ClientId>,
                       delivered: seq<ClientId>, evicted: seq<ClientId>)
    requires 0 < i <= |cs| && Some(cs[i - 1]) == from
    ensures Resume(cs, i, from, failing, delivered, evicted)
         == Resume(cs, i - 1, from, failing, delivered, evicted)
  {
    assert Rest(cs, i - 1)[1..] == Rest(cs, i);
  }

  /** The iterator sends to a connection whose `send` succeeds. */
  lemma ResumeDeliver(cs: seq<ClientId>, i: nat, from: Option<ClientId>, failing: set<ClientId>,
                      delivered: seq<ClientId>, evicted: seq<ClientId>)
    requires 0 < i <= |cs| && Some(cs[i - 1]) != from && cs[i - 1] !in failing
    ensures Resume(cs, i, from, failing, delivered + [cs[i - 1]], evicted)
         == Resume(cs, i - 1, from, failing, delivered, evicted)
  {
    assert Rest(cs, i - 1)[1..] == Rest(cs, i);
    var next := Fanout(Rest(cs, i), from, failing);
    assert (delivered + [cs[i - 1]]) + next.delivered == delivered + ([cs[i - 1]] + next.delivered);
  }

  /** The iterator meets a failing connection: removing it from the list makes the
      iterator's next visit land one element further on. */
  lemma ResumeEvict(cs: seq<ClientId>, i: nat, from: Option<ClientId>, failing: set<ClientId>,
                    delivered: seq<ClientId>, evicted: seq<ClientId>)
    requires 0 < i <= |cs| && Some(cs[i - 1]) != from && cs[i - 1] in failing
    ensures Resume(RemoveFirst(cs, cs[i - 1]), i, from, failing, delivered, evicted + [cs[i - 1]])
         == Resume(cs, i - 1, from, failing, delivered, evicted)
  {
    RemoveFirstShifts(cs, i);
    assert Rest(RemoveFirst(cs, cs[i - 1]), i) == Rest(Rest(cs, i - 1), 2);
    var next := Fanout(Rest(Rest(cs, i - 1), 2), from, failing);
    assert (evicted + [cs[i - 1]]) + next.evicted == evicted + ([cs[i - 1]] + next.evicted);
  }

  /** Only registered connections are sent the message or evicted; the excluded
      connection is never either, every evicted connection is one whose `send` fails, and
      every connection sent the message is one whose `send` succeeds. */
  lemma {:induction false} FanoutMembers(cs: seq<ClientId>, from: Option<ClientId>, failing: set<ClientId>)
    ensures var f := Fanout(cs, from, failing);
            && (forall c :: c in f.delivered ==> c in cs && Some(c) != from && c !in failing)
            && (forall c :: c in f.evicted ==> c in cs && Some(c) != from && c in failing)
    decreases |cs|
  {
    if |cs| > 0 {
      if Some(cs[0]) == from || cs[0] !in failing {
        FanoutMembers(cs[1..], from, failing);
        assert forall c :: c in cs[1..] ==> c in cs;
      } else {
        FanoutMembers(Rest(cs, 2), from, failing);
        assert forall c :: c in Rest(cs, 2) ==> c in cs;
      }
    }
  }

  /** When no connection but possibly the excluded one fails, every connection but the
      excluded one is sent the message, in list order, and nobody is evicted. */
  lemma {:induction false} FanoutWithoutFailures(cs: seq<ClientId>, from: Option<ClientId>, failing: set<ClientId>)
    requires forall k :: 0 <= k < |cs| && Some(cs[k]) != from ==> cs[k] !in failing
    ensures Fanout(cs, from, failing) == Fan(Others(cs, from), [])
    decreases |cs|
  {
    if |cs| > 0 {
      FanoutWithoutFailures(cs[1..], from, failing);
    }
  }

  /** On a list without duplicates nobody is sent the message twice. */
  lemma {:induction false} FanoutDeliversOnce(cs: seq<ClientId>, from: Option<ClientId>, failing: set<ClientId>)
    requires Distinct(cs)
    ensures Distinct(Fanout(cs, from, failing).delivered)
    ensures Distinct(Fanout(cs, from, failing).evicted)
    decreases |cs|
  {
    if |cs| > 0 {
      var tail := cs[1..];
      assert cs[0] !in tail;
      if Some(cs[0]) == from {
        FanoutDeliversOnce(tail, from, failing);
      } else if cs[0] in failing {
        var skip := Rest(cs, 2);
        assert forall c :: c in skip ==> c in tail;
        FanoutDeliversOnce(skip, from, failing);
        FanoutMembers(skip, from, failing);
      } else {
        FanoutDeliversOnce(tail, from, failing);
        FanoutMembers(tail, from, failing);
      }
    }
  }

  /** The iteration over `pre` ends exactly at its end: it does not step over the first
      element that follows, as it would if the last element of `pre` were evicted. */
  predicate Lands(pre: seq<ClientId>, from: Option<ClientId>, failing: set<ClientId>)
    decreases |pre|
  {
    if |pre| == 0 then true
    else if Some(pre[0]) != from && pre[0] in failing then |pre| >= 2 && Lands(pre[2..], from, failing)
    else Lands(pre[1..], from, failing)
  }

  /** Where the iteration lands after `pre`, the fan-out over `pre + rest` is the fan-out
      over `pre` followed by the fan-out over `rest`. */
  lemma {:induction false} FanoutSplits(pre: seq<ClientId>, rest: seq<ClientId>, from: Option<ClientId>, failing: set<ClientId>)
    requires Lands(pre, from, failing)
    ensures var whole := Fanout(pre + rest, from, failing);
            var f := Fanout(pre, from, failing);
            var g := Fanout(rest, from, failing);
            whole == Fan(f.delivered + g.delivered, f.evicted + g.evicted)
    decreases |pre|
  {
    if |pre| == 0 {
      assert pre + rest == rest;
    } else if Some(pre[0]) != from && pre[0] in failing {
      FanoutSplits(pre[2..], rest, from, failing);
      SplitsAfterEviction(pre, rest, from, failing);
    } else {
      FanoutSplits(pre[1..], rest, from, failing);
      SplitsAfterVisit(pre, rest, from, failing);
    }
  }

  /** `FanoutSplits` when the first element of `pre` is evicted, from the split of the
      part after its successor. */
  lemma {:induction false} SplitsAfterEviction(pre: seq<ClientId>, rest: seq<ClientId>, from: Option<ClientId>, failing: set<ClientId>)
    requires |pre| >= 2 && Some(pre[0]) != from && pre[0] in failing
    requires var f := Fanout(pre[2..], from, failing);
             var g := Fanout(rest, from, failing);
             Fanout(pre[2..] + rest, from, failing) == Fan(f.delivered + g.delivered, f.evicted + g.evicted)
    ensures var f := Fanout(pre, from, failing);
            var g := Fanout(rest, from, failing);
            Fanout(pre + rest, from, failing) == Fan(f.delivered + g.delivered, f.evicted + g.evicted)
  {
    FanoutOfEvictedHead(pre + rest, from, failing);
    FanoutOfEvictedHead(pre, from, failing);
    assert (pre + rest)[2..] == pre[2..] + rest;
    EvictedHeadJoins(Fanout(pre[2..] + rest, from, failing), Fanout(pre[2..], from, failing), Fanout(rest, from, failing), pre[0]);
  }

  lemma EvictedHeadJoins(whole: Fan, f: Fan, g: Fan, h: ClientId)
    requires whole == Fan(f.delivered + g.delivered, f.evicted + g.evicted)
    ensures Fan(whole.delivered, [h] + whole.evicted) == Fan(f.delivered + g.delivered, ([h] + f.evicted) + g.evicted)
  {
    assert [h] + (f.evicted + g.evicted) == ([h] + f.evicted) + g.evicted;
  }

  /** One step of `Fanout` past a failing first element. */
  lemma FanoutOfEvictedHead(cs: seq<ClientId>, from: Option<ClientId>, failing: set<ClientId>)
    requires |cs| >= 2 && Some(cs[0]) != from && cs[0] in failing
    ensures var f := Fanout(cs[2..], from, failing);
            Fanout(cs, from, failing) == Fan(f.delivered, [cs[0]] + f.evicted)
  {
    assert Rest(cs, 2) == cs[2..];
  }

  /** `FanoutSplits` when the first element of `pre` is skipped as the sender or sent the
      message, from the split of the part after it. */
  lemma {:induction false} SplitsAfterVisit(pre: seq<ClientId>, rest: seq<ClientId>, from: Option<ClientId>, failing: set<ClientId>)
    requires |pre| >= 1 && !(Some(pre[0]) != from && pre[0] in failing)
    requires var f := Fanout(pre[1..], from, failing);
             var g := Fanout(rest, from, failing);
             Fanout(pre[1..] + rest, from, failing) == Fan(f.delivered + g.delivered, f.evicted + g.evicted)
    ensures var f := Fanout(pre, from, failing);
            var g := Fanout(rest, from, failing);
            Fanout(pre + rest, from, failing) == Fan(f.delivered + g.delivered, f.evicted + g.evicted)
  {
    assert (pre + rest)[0] == pre[0];
    assert (pre + rest)[1..] == pre[1..] + rest;
    var whole := Fanout(pre[1..] + rest, from, failing);
    var f := Fanout(pre[1..], from, failing);
    var g := Fanout(rest, from, failing);
    if Some(pre[0]) != from {
      DeliveredHeadJoins(whole, f, g, pre[0]);
    }
  }

  lemma DeliveredHeadJoins(whole: Fan, f: Fan, g: Fan, h: ClientId)
    requires whole == Fan(f.delivered + g.delivered, f.evicted + g.evicted)
    ensures Fan([h] + whole.delivered, whole.evicted) == Fan(([h] + f.delivered) + g.delivered, f.evicted + g.evicted)
  {
    assert [h] + (f.delivered + g.delivered) == ([h] + f.delivered) + g.delivered;
  }

  /** When a visited connection `x` fails, the connection `y` right after it is skipped:
      on a duplicate-free list `x` is evicted and `y` is neither sent the message nor
      evicted by this broadcast. `Lands(pre, ...)` says the iterator does reach `x`. */
  lemma {:induction false} FanoutSkipsSuccessorOfEvicted(pre: seq<ClientId>, x: ClientId, y: ClientId, post: seq<ClientId>,
                                      from: Option<ClientId>, failing: set<ClientId>)
    requires Distinct(pre + [x, y] + post)
    requires Lands(pre, from, failing) && Some(x) != from && x in failing
    ensures x in Fanout(pre + [x, y] + post, from, failing).evicted
    ensures y !in Fanout(pre + [x, y] + post, from, failing).delivered
    ensures y !in Fanout(pre + [x, y] + post, from, failing).evicted
  {
    var cs := pre + [x, y] + post;
    var tail := [x, y] + post;
    assert cs == pre + tail;
    FanoutSplits(pre, tail, from, failing);
    FanoutOfEvictedHead(tail, from, failing);
    assert tail[2..] == post;
    var fp := Fanout(pre, from, failing);
    var fq := Fanout(post, from, failing);
    assert Fanout(cs, from, failing) == Fan(fp.delivered + fq.delivered, fp.evicted + ([x] + fq.evicted));
    FanoutMembers(pre, from, failing);
    FanoutMembers(post, from, failing);
    OnlyOnce(pre, x, y, post);
  }

  /** In a duplicate-free `pre + [x, y] + post`, `y` occurs only between `x` and `post`. */
  lemma OnlyOnce(pre: seq<ClientId>, x: ClientId, y: ClientId, post: seq<ClientId>)
    requires Distinct(pre + [x, y] + post)
    ensures y != x && y !in pre && y !in post
  {
    var cs := pre + [x, y] + post;
    assert cs[|pre|] == x && cs[|pre| + 1] == y;
    forall k | 0 <= k < |pre| ensures pre[k] != y { assert cs[k] == pre[k]; }
    forall k | 0 <= k < |post| ensures post[k] != y { assert cs[|pre| + 2 + k] == post[k]; }
  }

  /** Three connections, the first of which fails: the second never hears the message. */
  lemma SkipExample()
    ensures Fanout([1, 2, 3], None, {1}) == Fan([3], [1])
  {
    assert Rest([1, 2, 3], 2) == [3];
    assert [3][1..] == [];
  }

  /** Four connections, the second of which fails: the third never hears the message. */
  lemma LaterSkipExample()
    ensures Fanout([1, 2, 3, 4], None, {2}) == Fan([1, 4], [2])
  {
    assert [1, 2, 3, 4][1..] == [2, 3, 4];
    assert Rest([2, 3, 4], 2) == [4];
    assert [4][1..] == [];
  }
}
