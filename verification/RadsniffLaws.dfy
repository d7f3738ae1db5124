/**
  Laws of the radsniff matcher that hold in every reachable state, under any mix of requests, responses,
  retransmissions, identifier reuse, timeouts and interval clears.
 */
module RadsniffLaws {
  import opened Bytes
  import opened Radsniff

  // ----- Counting -----

  /** `linked_total` summed over some codes. */
  function LinkedOver(x: Exchange, codes: seq<nat>): nat
    requires forall i :: 0 <= i < |codes| ==> codes[i] < |x|
  {
    if codes == [] then 0 else x[codes[0]].linked + LinkedOver(x, codes[1..])
  }

  /** Each response is linked or unlinked, and each link counts once for its request and once for its response. */
  ghost predicate Balanced(x: Exchange)
    requires ExchangeOk(x)
  {
    && (forall c: nat :: IsResponse(c) ==> x[c].received == x[c].linked + x[c].unlinked)
    && LinkedOver(x, REQUESTS) == LinkedOver(x, RESPONSES)
  }

  /** The sum over a list of distinct codes changes by what the one changed code changes by. */
  lemma {:induction false} LinkedOverChange(x: Exchange, y: Exchange, c: nat, codes: seq<nat>)
    requires |x| == |y| && c < |x|
    requires forall i :: 0 <= i < |codes| ==> codes[i] < |x|
    requires forall i, j :: 0 <= i < j < |codes| ==> codes[i] != codes[j]
    requires forall i :: 0 <= i < |x| && i != c ==> x[i].linked == y[i].linked
    ensures LinkedOver(y, codes) == LinkedOver(x, codes) + if c in codes then y[c].linked - x[c].linked else 0
  {
    if codes != [] {
      LinkedOverChange(x, y, c, codes[1..]);
    }
  }

  lemma LinkedChange(x: Exchange, y: Exchange, c: nat)
    requires ExchangeOk(x) && ExchangeOk(y) && c < CODES
    requires forall i :: 0 <= i < CODES && i != c ==> x[i].linked == y[i].linked
    ensures LinkedOver(y, REQUESTS) == LinkedOver(x, REQUESTS) + if IsRequest(c) then y[c].linked - x[c].linked else 0
    ensures LinkedOver(y, RESPONSES)
         == LinkedOver(x, RESPONSES) + if IsResponse(c) then y[c].linked - x[c].linked else 0
  {
    LinkedOverChange(x, y, c, REQUESTS);
    LinkedOverChange(x, y, c, RESPONSES);
  }

  lemma RequestNotResponse(c: nat)
    ensures !(IsRequest(c) && IsResponse(c))
    ensures IsRequest(c) || IsResponse(c) <==> c in USEFUL
  {
  }

  lemma LinkBalanced(x: Exchange, p: nat, q: nat)
    requires ExchangeOk(x) && Balanced(x) && IsResponse(p) && IsRequest(q)
    ensures Balanced(IncLinked(IncLinked(IncReceived(x, p), p), q))
  {
    var x1 := IncReceived(x, p);
    var x2 := IncLinked(x1, p);
    var x3 := IncLinked(x2, q);
    RequestNotResponse(p);
    RequestNotResponse(q);
    hide IsRequest, IsResponse, LinkedOver;
    LinkedChange(x, x1, p);
    LinkedChange(x1, x2, p);
    LinkedChange(x2, x3, q);
  }

  /** Counters that no balance mentions may change. */
  lemma SameLinksBalanced(x: Exchange, y: Exchange)
    requires ExchangeOk(x) && ExchangeOk(y) && Balanced(x)
    requires forall c :: 0 <= c < CODES ==> x[c].linked == y[c].linked
    requires forall c: nat :: IsResponse(c) ==> y[c].received - x[c].received == y[c].unlinked - x[c].unlinked
    ensures Balanced(y)
  {
    hide IsRequest, IsResponse, LinkedOver;
    LinkedChange(x, y, 0);
  }

  lemma ClearedBalanced(x: Exchange)
    requires ExchangeOk(x)
    ensures Balanced(Cleared(x))
  {
    var y := Cleared(x);
    forall c: nat | IsResponse(c) || IsRequest(c)
      ensures y[c] == ZERO
    {
      RequestNotResponse(c);
    }
    NoneLinked(y, REQUESTS);
    NoneLinked(y, RESPONSES);
  }

  lemma {:induction false} NoneLinked(x: Exchange, codes: seq<nat>)
    requires forall i :: 0 <= i < |codes| ==> codes[i] < |x| && x[codes[i]].linked == 0
    ensures LinkedOver(x, codes) == 0
  {
    if codes != [] {
      NoneLinked(x, codes[1..]);
    }
  }

  lemma CleanupBalanced(s: Sniff, k: Key, silent: bool, cause: Cause)
    requires s.Ok() && k in s.tree && Balanced(s.exchange)
    ensures Balanced(Cleanup(s, k, silent, cause).exchange)
  {
    hide IsRequest, IsResponse, Balanced;
    SameLinksBalanced(s.exchange, Cleanup(s, k, silent, cause).exchange);
  }

  lemma ResponseBalanced(conf: Conf, s: Sniff, p: Packet, o: Oracle)
    requires s.Ok() && IsResponse(p.code) && Balanced(s.exchange)
    ensures Balanced(Response(conf, s, p, o).exchange)
  {
    hide IsRequest, IsResponse, Balanced, Cleanup;
    var k := KeyOf(p);
    if k in s.tree {
      CleanupBalanced(s, k, true, Filtered);
      LinkOk(s.tree[k], p.code);
      LinkBalanced(s.exchange, p.code, s.tree[k].expectCode);
    }
    SameLinksBalanced(s.exchange, IncReceived(IncUnlinked(s.exchange, p.code), p.code));
  }

  lemma ReuseBalanced(s: Sniff, p: Packet)
    requires s.Ok() && IsRequest(p.code) && Balanced(s.exchange)
    ensures Balanced(ResolveReuse(s, p).exchange)
  {
    hide IsRequest, IsResponse, Balanced, Cleanup;
    var k := ReplyKey(p);
    if k in s.tree {
      var reused := s.(exchange := IncReused(s.exchange, p.code));
      SameLinksBalanced(s.exchange, reused.exchange);
      CleanupBalanced(reused, k, true, Reused);
      CleanupBalanced(s, k, false, Answered);
    }
  }

  lemma RequestBalanced(conf: Conf, s: Sniff, p: Packet, o: Oracle)
    requires s.Ok() && IsRequest(p.code) && Balanced(s.exchange)
    ensures Balanced(Request(conf, s, p, o).exchange)
  {
    RequestNotResponse(p.code);
    hide IsRequest, IsResponse, Balanced, ResolveReuse;
    ReuseBalanced(s, p);
    var x := ResolveReuse(s, p).exchange;
    SameLinksBalanced(x, IncReceived(x, p.code));
  }

  lemma StepBalanced(conf: Conf, s: Sniff, e: Event)
    requires s.Ok() && Balanced(s.exchange)
    ensures Balanced(Step(conf, s, e).exchange)
  {
    hide Balanced, Response, Request, Cleanup, IsRequest, IsResponse;
    match e
    case Captured(p, o) =>
      var s' := s.(count := s.count + 1);
      if IsResponse(p.code) {
        ResponseBalanced(conf, s', p, o);
      } else if IsRequest(p.code) {
        RequestBalanced(conf, s', p, o);
      }
    case Expire(k) =>
      if k in s.tree {
        CleanupBalanced(s, k, s.tree[k].silent, Expired);
      }
    case Tick =>
      ClearedBalanced(s.exchange);
  }

  /**
    The counting laws, in every reachable state and so within every interval: for each response code
    received = linked + unlinked, and the links summed over request codes equal those summed over
    response codes.
   */
  lemma {:induction false} RunBalanced(conf: Conf, es: seq<Event>)
    ensures Balanced(Run(conf, es).exchange)
  {
    hide Step, Balanced;
    if es == [] {
      NoCountsBalanced();
    } else {
      RunBalanced(conf, es[..|es| - 1]);
      StepBalanced(conf, Run(conf, es[..|es| - 1]), es[|es| - 1]);
    }
  }

  lemma NoCountsBalanced()
    ensures Balanced(NoCounts())
  {
    NoneLinked(NoCounts(), REQUESTS);
    NoneLinked(NoCounts(), RESPONSES);
  }

  // ----- Every request is removed once or still outstanding -----

  ghost predicate Outstanding(s: Sniff, id: nat) {
    exists k :: k in s.tree && s.tree[k].id == id
  }

  predicate Removed(s: Sniff, id: nat) {
    exists i :: 0 <= i < |s.log| && s.log[i].entry.id == id
  }

  /** No two records, outstanding or removed, are of the same request; together they are those created. */
  ghost predicate Partition(s: Sniff) {
    && (forall id :: id in s.created ==> id <= s.count && (Outstanding(s, id) || Removed(s, id)))
    && (forall k :: k in s.tree ==> s.tree[k].id in s.created)
    && (forall i :: 0 <= i < |s.log| ==> s.log[i].entry.id in s.created)
    && (forall k, k' :: k in s.tree && k' in s.tree && k != k' ==> s.tree[k].id != s.tree[k'].id)
    && (forall i, j :: 0 <= i < j < |s.log| ==> s.log[i].entry.id != s.log[j].entry.id)
    && (forall k, i :: k in s.tree && 0 <= i < |s.log| ==> s.tree[k].id != s.log[i].entry.id)
  }

  /** The same requests under the same keys, with other details changed. */
  predicate SameRequests(s: Sniff, t: Sniff) {
    && t.log == s.log && t.created == s.created && t.count >= s.count
    && t.tree.Keys == s.tree.Keys && forall k :: k in s.tree ==> t.tree[k].id == s.tree[k].id
  }

  lemma SameRequestsPartition(s: Sniff, t: Sniff)
    requires Partition(s) && SameRequests(s, t)
    ensures Partition(t)
  {
    forall id | id in t.created
      ensures Outstanding(t, id) || Removed(t, id)
    {
      assert Outstanding(s, id) || Removed(s, id);
      if Outstanding(s, id) {
        var k :| k in s.tree && s.tree[k].id == id;
        assert k in t.tree;
      }
    }
  }

  /** What was outstanding or removed still is, when the request under `k` is removed. */
  lemma RemoveKeeps(s: Sniff, k: Key, e: Entry, cause: Cause, id: nat)
    requires k in s.tree && e.id == s.tree[k].id && (Outstanding(s, id) || Removed(s, id))
    ensures var t := Freed(s, k, e, cause); Outstanding(t, id) || Removed(t, id)
  {
    var t := Freed(s, k, e, cause);
    if Removed(s, id) {
      var i :| 0 <= i < |s.log| && s.log[i].entry.id == id;
      assert t.log[i] == s.log[i];
    } else {
      var k' :| k' in s.tree && s.tree[k'].id == id;
      if k' == k {
        assert t.log[|s.log|].entry.id == id;
      } else {
        assert k' in t.tree;
      }
    }
  }

  /** The request under `k`, and only that, was removed. */
  lemma RemovePartition(s: Sniff, k: Key, e: Entry, cause: Cause)
    requires Partition(s) && k in s.tree && e.id == s.tree[k].id
    ensures Partition(Freed(s, k, e, cause))
  {
    hide Outstanding, Removed;
    forall id | id in s.created
      ensures var t := Freed(s, k, e, cause); Outstanding(t, id) || Removed(t, id)
    {
      RemoveKeeps(s, k, e, cause, id);
    }
  }

  /** A request with a new number was added under a free key. */
  lemma AddPartition(s: Sniff, k: Key, e: Entry)
    requires Partition(s) && k !in s.tree && e.id == s.count && s.count !in s.created
    ensures Partition(s.(tree := s.tree[k := e], created := s.created + {e.id}))
  {
    var t := s.(tree := s.tree[k := e], created := s.created + {e.id});
    forall id | id in t.created
      ensures Outstanding(t, id) || Removed(t, id)
    {
      if id == e.id {
        assert t.tree[k].id == id;
      } else {
        assert Outstanding(s, id) || Removed(s, id);
        if Outstanding(s, id) {
          var k' :| k' in s.tree && s.tree[k'].id == id;
          assert t.tree[k'].id == id;
        }
      }
    }
  }

  lemma CleanupPartition(s: Sniff, k: Key, silent: bool, cause: Cause)
    requires s.Ok() && k in s.tree && Partition(s)
    ensures Partition(Cleanup(s, k, silent, cause))
  {
    hide Partition, CleanupStats;
    var e := s.tree[k].(silent := silent);
    RemovePartition(s, k, e, cause);
    SameRequestsPartition(Freed(s, k, e, cause), Cleanup(s, k, silent, cause));
  }

  lemma ResponsePartition(conf: Conf, s: Sniff, p: Packet, o: Oracle)
    requires s.Ok() && IsResponse(p.code) && Partition(s)
    ensures Partition(Response(conf, s, p, o))
  {
    hide Partition, Cleanup, IncReceived, IncLinked, IncUnlinked, IsRequest, IsResponse;
    var k := KeyOf(p);
    if k in s.tree {
      CleanupPartition(s, k, true, Filtered);
      RemovePartition(s, k, Link(s.tree[k], p.code), NoTimer);
    }
    if SameRequests(s, Response(conf, s, p, o)) {
      SameRequestsPartition(s, Response(conf, s, p, o));
    }
  }

  lemma ReusePartition(s: Sniff, p: Packet)
    requires s.Ok() && IsRequest(p.code) && Partition(s)
    ensures var t := ResolveReuse(s, p);
      Partition(t) && t.count == s.count && t.created == s.created
  {
    hide Partition, CleanupStats, IncReused, IsRequest, IsResponse;
    var k := ReplyKey(p);
    if k in s.tree {
      var reused := s.(exchange := IncReused(s.exchange, p.code));
      SameRequestsPartition(s, reused);
      CleanupPartition(reused, k, true, Reused);
      CleanupPartition(s, k, false, Answered);
    }
  }

  lemma TrackingPartition(conf: Conf, s: Sniff, p: Packet, timerOk: bool)
    requires s.Ok() && IsRequest(p.code) && Partition(s) && s.count !in s.created
    ensures Partition(Tracking(conf, s, p, timerOk))
  {
    hide Partition, IsRequest, IsResponse;
    var k, e := ReplyKey(p), Seen(conf, s, p);
    var added := s.(tree := s.tree[k := e], created := if k in s.tree then s.created else s.created + {e.id});
    if k in s.tree {
      SameRequestsPartition(s, added);
    } else {
      AddPartition(s, k, e);
    }
    RemovePartition(added, k, e, NoTimer);
    assert added.tree - {k} == s.tree - {k};
  }

  lemma RequestPartition(conf: Conf, s: Sniff, p: Packet, o: Oracle)
    requires s.Ok() && IsRequest(p.code) && Partition(s) && s.count !in s.created
    ensures Partition(Request(conf, s, p, o))
  {
    hide Partition, ResolveReuse, Tracking, IncReceived, IsRequest, IsResponse;
    ReusePartition(s, p);
    var s1 := ResolveReuse(s, p);
    TrackingPartition(conf, s1, p, o.timerOk);
    var s2 := Tracking(conf, s1, p, o.timerOk);
    SameRequestsPartition(s2, s2.(exchange := IncReceived(s2.exchange, p.code)));
  }

  lemma StepPartition(conf: Conf, s: Sniff, e: Event)
    requires s.Ok() && Partition(s)
    ensures Partition(Step(conf, s, e))
  {
    hide Response, Request, Cleanup, IsRequest, IsResponse, Cleared;
    match e
    case Captured(p, o) =>
      var s' := s.(count := s.count + 1);
      assert s'.count !in s'.created;
      SameRequestsPartition(s, s');
      if IsResponse(p.code) {
        ResponsePartition(conf, s', p, o);
      } else if IsRequest(p.code) {
        RequestPartition(conf, s', p, o);
      }
    case Expire(k) =>
      if k in s.tree {
        CleanupPartition(s, k, s.tree[k].silent, Expired);
      }
    case Tick =>
      SameRequestsPartition(s, Step(conf, s, e));
  }

  /** In every reachable state, each request ever created was removed exactly once or is still outstanding. */
  lemma {:induction false} RunPartition(conf: Conf, es: seq<Event>)
    ensures Partition(Run(conf, es))
  {
    hide Step;
    if es != [] {
      RunPartition(conf, es[..|es| - 1]);
      StepPartition(conf, Run(conf, es[..|es| - 1]), es[|es| - 1]);
    }
  }

  // ----- What the loss and retransmission counters count -----

  function Ones(b: bool): nat { if b then 1 else 0 }

  /** Lost: its timer fired, with no response linked and no reason to keep silent. */
  predicate IsLoss(r: Removal, c: nat) {
    r.cause == Expired && r.entry.linked == None && !r.entry.silent && r.entry.statsReq == c
  }

  /** How many of the removed requests of code `c` were lost. */
  function LostIn(log: seq<Removal>, c: nat): nat {
    if log == [] then 0 else LostIn(log[..|log| - 1], c) + Ones(IsLoss(log[|log| - 1], c))
  }

  /** What one removal adds to a retransmission bin, for the request and for its responses. */
  function BinShare(r: Removal, c: nat, bin: nat): nat {
    if r.cause == NoTimer then 0
    else
      Ones(r.entry.rtReq > 0 && r.entry.statsReq == c && Bin(r.entry.rtReq) == bin)
      + Ones(r.entry.rtRsp > 0 && r.entry.statsRsp == Some(c) && Bin(r.entry.rtRsp) == bin)
  }

  function RetransmitsIn(log: seq<Removal>, c: nat, bin: nat): nat {
    if log == [] then 0 else RetransmitsIn(log[..|log| - 1], c, bin) + BinShare(log[|log| - 1], c, bin)
  }

  /** The removals since the last tick. */
  function Recent(s: Sniff): seq<Removal>
    requires s.Ok()
  {
    s.log[s.mark..]
  }

  /** The counters of code `c` are the tally of the removals of the current interval. */
  predicate TalliedAt(s: Sniff, c: nat)
    requires s.Ok() && c < CODES
  {
    && s.exchange[c].lost == LostIn(Recent(s), c)
    && forall bin :: 0 <= bin <= RETRANSMIT_MAX ==> s.exchange[c].rt[bin] == RetransmitsIn(Recent(s), c, bin)
  }

  /** One more removal, and the counters changed by its share. */
  lemma OneMoreTallied(s: Sniff, t: Sniff, r: Removal, c: nat)
    requires s.Ok() && t.Ok() && c < CODES && TalliedAt(s, c)
    requires t.log == s.log + [r] && t.mark == s.mark
    requires t.exchange[c].lost == s.exchange[c].lost + Ones(IsLoss(r, c))
    requires forall bin :: 0 <= bin <= RETRANSMIT_MAX ==>
      t.exchange[c].rt[bin] == s.exchange[c].rt[bin] + BinShare(r, c, bin)
    ensures TalliedAt(t, c)
  {
    hide IsLoss, BinShare;
    assert Recent(t) == Recent(s) + [r];
    assert Recent(t)[..|Recent(t)| - 1] == Recent(s);
  }

  /** A cleanup counts a loss only when the timer fired on it, and each retransmission in one bin per direction. */
  lemma CleanupTallied(s: Sniff, k: Key, silent: bool, cause: Cause, c: nat)
    requires s.Ok() && k in s.tree && c < CODES && TalliedAt(s, c) && cause != NoTimer
    requires cause == Expired || silent || s.tree[k].linked.Some?
    ensures TalliedAt(Cleanup(s, k, silent, cause), c)
  {
    hide TalliedAt, IsRequest, IsResponse;
    var e := s.tree[k].(silent := silent);
    OneMoreTallied(s, Cleanup(s, k, silent, cause), Removal(e, cause), c);
  }

  lemma SameTallied(s: Sniff, t: Sniff, c: nat)
    requires s.Ok() && t.Ok() && c < CODES && TalliedAt(s, c)
    requires t.log == s.log && t.mark == s.mark
    requires t.exchange[c].lost == s.exchange[c].lost && t.exchange[c].rt == s.exchange[c].rt
    ensures TalliedAt(t, c)
  {
    assert Recent(t) == Recent(s);
  }

  /** Without a timer a request goes uncounted. */
  lemma FreedTallied(s: Sniff, k: Key, e: Entry, c: nat)
    requires s.Ok() && c < CODES && TalliedAt(s, c)
    ensures Freed(s, k, e, NoTimer).Ok() && TalliedAt(Freed(s, k, e, NoTimer), c)
  {
    OneMoreTallied(s, Freed(s, k, e, NoTimer), Removal(e, NoTimer), c);
  }

  lemma ResponseTallied(conf: Conf, s: Sniff, p: Packet, o: Oracle, c: nat)
    requires s.Ok() && IsResponse(p.code) && c < CODES && TalliedAt(s, c)
    ensures TalliedAt(Response(conf, s, p, o), c)
  {
    hide TalliedAt, Cleanup, IsRequest, IsResponse;
    var k := KeyOf(p);
    if k in s.tree {
      CleanupTallied(s, k, true, Filtered, c);
      FreedTallied(s, k, Link(s.tree[k], p.code), c);
    }
    var t := Response(conf, s, p, o);
    if t.log == s.log {
      if t.exchange[c].lost == s.exchange[c].lost && t.exchange[c].rt == s.exchange[c].rt && t.mark == s.mark {
        SameTallied(s, t, c);
      }
    }
  }

  lemma ReuseTallied(s: Sniff, p: Packet, c: nat)
    requires s.Ok() && IsRequest(p.code) && c < CODES && TalliedAt(s, c)
    ensures TalliedAt(ResolveReuse(s, p), c)
  {
    hide TalliedAt, Cleanup, IsRequest, IsResponse;
    var k := ReplyKey(p);
    if k in s.tree {
      var reused := s.(exchange := IncReused(s.exchange, p.code));
      SameTallied(s, reused, c);
      CleanupTallied(reused, k, true, Reused, c);
      if s.tree[k].linked.Some? {
        CleanupTallied(s, k, false, Answered, c);
      }
    }
  }

  lemma RequestTallied(conf: Conf, s: Sniff, p: Packet, o: Oracle, c: nat)
    requires s.Ok() && IsRequest(p.code) && c < CODES && TalliedAt(s, c)
    ensures TalliedAt(Request(conf, s, p, o), c)
  {
    hide TalliedAt, ResolveReuse, IsRequest, IsResponse, Seen;
    ReuseTallied(s, p, c);
    var s1, k := ResolveReuse(s, p), ReplyKey(p);
    var s2 := if k in s1.tree then s1 else s1.(created := s1.created + {s1.count});
    SameTallied(s1, s2, c);
    FreedTallied(s2, k, Seen(conf, s1, p), c);
    SeenOk(conf, s1, p);
    var t := s2.(tree := s2.tree[k := Seen(conf, s1, p)], exchange := IncReceived(s2.exchange, p.code));
    SameTallied(s2, t, c);
  }

  lemma StepTallied(conf: Conf, s: Sniff, e: Event, c: nat)
    requires s.Ok() && (IsRequest(c) || IsResponse(c)) && TalliedAt(s, c)
    ensures TalliedAt(Step(conf, s, e), c)
  {
    RequestNotResponse(c);
    hide TalliedAt, Response, Request, Cleanup, IsRequest, IsResponse;
    match e
    case Captured(p, o) =>
      var s' := s.(count := s.count + 1);
      SameTallied(s, s', c);
      if IsResponse(p.code) {
        ResponseTallied(conf, s', p, o, c);
      } else if IsRequest(p.code) {
        RequestTallied(conf, s', p, o, c);
      }
    case Expire(k) =>
      if k in s.tree {
        CleanupTallied(s, k, s.tree[k].silent, Expired, c);
      }
    case Tick =>
      NothingTallied(Step(conf, s, e), c);
  }

  lemma NothingTallied(s: Sniff, c: nat)
    requires s.Ok() && c < CODES && s.mark == |s.log| && s.exchange[c] == ZERO
    ensures TalliedAt(s, c)
  {
    assert Recent(s) == [];
  }

  /**
    In every reachable state, the lost counter of a code is the number of its requests whose timer fired
    in this interval with no response linked and no silent flag, and each retransmission bin is the number
    of removals in this interval that fall in it. A request freed because no timer could be set is in none.
   */
  lemma {:induction false} RunTallied(conf: Conf, es: seq<Event>, c: nat)
    requires IsRequest(c) || IsResponse(c)
    ensures TalliedAt(Run(conf, es), c)
  {
    hide Step, TalliedAt, IsRequest, IsResponse;
    if es == [] {
      NothingTallied(Start(), c);
    } else {
      RunTallied(conf, es[..|es| - 1], c);
      StepTallied(conf, Run(conf, es[..|es| - 1]), es[|es| - 1], c);
    }
  }

  // ----- Timers -----

  const USEC := 1000000

  /** The time `interval` milliseconds after a time in seconds and microseconds, `rs_tv_add_ms`. */
  function AddMs(sec: nat, usec: nat, interval: nat): (r: (nat, nat)) {
    var s, u := sec + interval / 1000, usec + interval % 1000 * 1000;
    if u > USEC then (s + 1, u - USEC) else (s, u)
  }

  /**
    The sum is always the right instant, but its microseconds stay below a second if and only if they
    do not add up to exactly one second.
   */
  lemma AddMsNormalised(sec: nat, usec: nat, interval: nat)
    requires usec < USEC
    ensures var (s, u) := AddMs(sec, usec, interval);
      && s * USEC + u == sec * USEC + usec + interval * 1000
      && (u < USEC <==> usec + interval % 1000 * 1000 != USEC)
  {
  }
}
