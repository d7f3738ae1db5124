/**
  Which packets radsniff matches (src/bin/radsniff.c), told from the fields of the packets captured: a response
  belongs to the outstanding request with its identifier and its endpoints reversed, and a request repeats the
  outstanding one with its identifier, endpoints and authenticator.
 */
module RadsniffMatches {
  import opened Bytes
  import opened Radsniff
  import opened RadsniffLaws

  /** Which codes are which, and that both kinds are reported. */
  lemma Codes(c: nat)
    ensures IsRequest(c) <==> c in {1, 4, 12, 40, 43}
    ensures IsResponse(c) <==> c in {2, 3, 5, 11, 13, 41, 42, 44, 45}
    ensures c in USEFUL <==> IsRequest(c) || IsResponse(c)
  {
  }

  // ----- What was captured -----

  /** The packets captured, in order; the n-th is packet number n. */
  function Captures(es: seq<Event>): seq<Packet> {
    if es == [] then []
    else
      var front := Captures(es[..|es| - 1]);
      if es[|es| - 1].Captured? then front + [es[|es| - 1].p] else front
  }

  /** Request number `n` is outstanding: it was captured and noted, and has not been removed since. */
  ghost predicate Waiting(s: Sniff, n: nat) { n in s.created && !Removed(s, n) }

  /** `r` goes back where `q` came from, with the same identifier. */
  predicate Replies(q: Packet, r: Packet) { q.id == r.id && q.src == r.dst && q.dst == r.src }

  /** The same identifier between the same endpoints. */
  predicate SameExchange(q: Packet, p: Packet) { q.id == p.id && q.src == p.src && q.dst == p.dst }

  /** An entry stands for the request of its number. */
  predicate Stands(ps: seq<Packet>, k: Key, e: Entry) {
    && 0 < e.id <= |ps|
    && var q := ps[e.id - 1];
       && IsRequest(q.code) && k.id == q.id && k.src == q.dst && k.dst == q.src
       && e.vector == q.vector && e.statsReq == q.code
  }

  predicate AllStand(ps: seq<Packet>, s: Sniff) {
    s.count == |ps| && forall k :: k in s.tree ==> Stands(ps, k, s.tree[k])
  }

  lemma StandsLater(ps: seq<Packet>, p: Packet, k: Key, e: Entry)
    requires Stands(ps, k, e)
    ensures Stands(ps + [p], k, e)
  {
    assert (ps + [p])[e.id - 1] == ps[e.id - 1];
  }

  /** Entries keep their number, authenticator and code while they are in the tree; new ones stand for the packet. */
  predicate Grows(s: Sniff, t: Sniff, p: Packet) {
    forall k :: k in t.tree ==>
      || (k in s.tree && t.tree[k].id == s.tree[k].id && t.tree[k].vector == s.tree[k].vector
          && t.tree[k].statsReq == s.tree[k].statsReq)
      || (IsRequest(p.code) && k == Key(p.id, p.dst, p.src) && t.tree[k].id == s.count + 1
          && t.tree[k].vector == p.vector && t.tree[k].statsReq == p.code)
  }

  lemma CapturedGrows(conf: Conf, s: Sniff, p: Packet, o: Oracle)
    requires s.Ok()
    ensures Grows(s, Step(conf, s, Captured(p, o)), p) && Step(conf, s, Captured(p, o)).count == s.count + 1
  {
    hide Response, Request, IsRequest, IsResponse;
    var s0 := s.(count := s.count + 1);
    if IsResponse(p.code) {
      ResponseGrows(conf, s0, p, o);
    } else if IsRequest(p.code) {
      RequestGrows(conf, s0, p, o);
    }
  }

  lemma ResponseGrows(conf: Conf, s: Sniff, p: Packet, o: Oracle)
    requires s.Ok() && IsResponse(p.code)
    ensures var t := Response(conf, s, p, o);
      t.count == s.count && forall k :: k in t.tree ==>
        k in s.tree && t.tree[k].id == s.tree[k].id && t.tree[k].vector == s.tree[k].vector
        && t.tree[k].statsReq == s.tree[k].statsReq
  {
    hide CleanupStats, IncReceived, IncLinked, IncUnlinked, ExchangeOk, IsRequest, IsResponse;
  }

  lemma RequestGrows(conf: Conf, s: Sniff, p: Packet, o: Oracle)
    requires s.Ok() && IsRequest(p.code)
    ensures var t := Request(conf, s, p, o);
      t.count == s.count && forall k :: k in t.tree ==>
        || (k in s.tree && t.tree[k].id == s.tree[k].id && t.tree[k].vector == s.tree[k].vector
            && t.tree[k].statsReq == s.tree[k].statsReq)
        || (k == Key(p.id, p.dst, p.src) && t.tree[k].id == s.count && t.tree[k].vector == p.vector
            && t.tree[k].statsReq == p.code)
  {
    hide CleanupStats, IncReceived, IncReused, ExchangeOk, IsRequest, IsResponse, VerifiableRequest;
  }

  lemma OtherGrows(conf: Conf, s: Sniff, e: Event)
    requires s.Ok() && !e.Captured?
    ensures var t := Step(conf, s, e);
      t.count == s.count && forall k :: k in t.tree ==> k in s.tree && t.tree[k] == s.tree[k]
  {
    hide CleanupStats, ExchangeOk, Cleared;
  }

  /** In every reachable state, each entry stands for the request that was captured under its number. */
  lemma {:induction false} RunStands(conf: Conf, es: seq<Event>)
    ensures AllStand(Captures(es), Run(conf, es))
  {
    if es != [] {
      var front, e := es[..|es| - 1], es[|es| - 1];
      RunStands(conf, front);
      var s, ps := Run(conf, front), Captures(front);
      hide Step, Run;
      assert Run(conf, es) == Step(conf, s, e) by { RunLast(conf, es); }
      if e.Captured? {
        CapturedGrows(conf, s, e.p, e.o);
        var t := Step(conf, s, e);
        forall k | k in t.tree
          ensures Stands(ps + [e.p], k, t.tree[k])
        {
          if t.tree[k].id != s.count + 1 {
            StandsLater(ps, e.p, k, s.tree[k]);
          }
        }
      } else {
        OtherGrows(conf, s, e);
      }
    }
  }

  lemma RunLast(conf: Conf, es: seq<Event>)
    requires es != []
    ensures Run(conf, es) == Step(conf, Run(conf, es[..|es| - 1]), es[|es| - 1])
  {
  }

  // ----- Finding a request by its fields -----

  /** The request of number `n` is outstanding and has the entry `e`. */
  ghost predicate EntryIs(s: Sniff, n: nat, e: Entry) { e.id == n && exists k :: k in s.tree && s.tree[k] == e }

  lemma WaitingHasEntry(conf: Conf, es: seq<Event>, n: nat)
    ensures Waiting(Run(conf, es), n) <==> exists k :: k in Run(conf, es).tree && Run(conf, es).tree[k].id == n
  {
    hide Run;
    RunPartition(conf, es);
    var s := Run(conf, es);
    if Waiting(s, n) {
      assert Outstanding(s, n);
    }
    if k :| k in s.tree && s.tree[k].id == n {
      assert forall i :: 0 <= i < |s.log| ==> s.log[i].entry.id != n;
    }
  }

  /** Request number `n` is outstanding and `r` would be the reply to it. */
  ghost predicate Awaited(conf: Conf, es: seq<Event>, r: Packet, n: nat) {
    Waiting(Run(conf, es), n) && 0 < n <= |Captures(es)| && Replies(Captures(es)[n - 1], r)
  }

  /** Request number `n` is outstanding and `p` is between the same endpoints under the same identifier. */
  ghost predicate Open(conf: Conf, es: seq<Event>, p: Packet, n: nat) {
    Waiting(Run(conf, es), n) && 0 < n <= |Captures(es)| && SameExchange(Captures(es)[n - 1], p)
  }

  lemma AwaitedFound(conf: Conf, es: seq<Event>, r: Packet, n: nat)
    ensures var s, k := Run(conf, es), KeyOf(r); Awaited(conf, es, r, n) <==> k in s.tree && s.tree[k].id == n
  {
    hide Run, Captures;
    RunStands(conf, es);
    WaitingHasEntry(conf, es, n);
    var s, k := Run(conf, es), KeyOf(r);
    if Awaited(conf, es, r, n) {
      var k' :| k' in s.tree && s.tree[k'].id == n;
      assert Stands(Captures(es), k', s.tree[k']);
      assert k' == k;
    }
    if k in s.tree && s.tree[k].id == n {
      assert Stands(Captures(es), k, s.tree[k]);
    }
  }

  lemma OpenFound(conf: Conf, es: seq<Event>, p: Packet, n: nat)
    ensures var s, k := Run(conf, es), ReplyKey(p); Open(conf, es, p, n) <==> k in s.tree && s.tree[k].id == n
    ensures Open(conf, es, p, n) ==> Run(conf, es).tree[ReplyKey(p)].vector == Captures(es)[n - 1].vector
  {
    hide Run, Captures;
    RunStands(conf, es);
    WaitingHasEntry(conf, es, n);
    var s, k := Run(conf, es), ReplyKey(p);
    if Open(conf, es, p, n) {
      var k' :| k' in s.tree && s.tree[k'].id == n;
      assert Stands(Captures(es), k', s.tree[k']);
      assert k' == k;
    }
    if k in s.tree && s.tree[k].id == n {
      assert Stands(Captures(es), k, s.tree[k]);
    }
  }

  // ----- Responses -----

  /** A response that the filters and checks let through; some apply only if a request awaits it. */
  predicate Passes(conf: Conf, r: Packet, o: Oracle, awaited: bool) {
    && (conf.filterResponseCode == None || conf.filterResponseCode == Some(r.code))
    && (conf.verify && awaited ==> o.verifyOk) && (conf.decode ==> o.decodeOk)
    && (conf.filterResponseVps && awaited ==> o.passes)
  }

  /** The counters of response code `c` after one more response that is linked, or is not. */
  predicate CountedOnce(x: Exchange, y: Exchange, c: nat, linked: bool)
    requires ExchangeOk(x) && ExchangeOk(y) && c < CODES
  {
    && y[c].received == x[c].received + 1
    && y[c].linked == x[c].linked + (if linked then 1 else 0)
    && y[c].unlinked == x[c].unlinked + (if linked then 0 else 1)
  }

  lemma LinkCounts(x: Exchange, c: nat, q: nat)
    requires ExchangeOk(x) && IsResponse(c) && IsRequest(q)
    ensures CountedOnce(x, IncLinked(IncLinked(IncReceived(x, c), c), q), c, true)
    ensures IncLinked(IncLinked(IncReceived(x, c), c), q)[q].linked == x[q].linked + 1
  {
    RequestNotResponse(c);
    hide IsRequest, IsResponse;
  }

  /** A response that is let through is linked to the request that awaits it, and counted so on both sides. */
  lemma ResponseLinked(conf: Conf, es: seq<Event>, r: Packet, o: Oracle, n: nat) returns (e: Entry)
    requires IsResponse(r.code) && Awaited(conf, es, r, n) && Passes(conf, r, o, true) && o.timerOk
    ensures var s, t := Run(conf, es), Step(conf, Run(conf, es), Captured(r, o));
      && EntryIs(s, n, e) && CountedOnce(s.exchange, t.exchange, r.code, true)
      && IsRequest(e.expectCode) && t.exchange[e.expectCode].linked == s.exchange[e.expectCode].linked + 1
      && EntryIs(t, n, e.(linked := Some(r.code), statsRsp := if e.linked.Some? then e.statsRsp else Some(r.code),
                          rtRsp := if e.linked.Some? then e.rtRsp + 1 else e.rtRsp))
      && t.log == s.log && t.created == s.created
  {
    hide Run;
    AwaitedFound(conf, es, r, n);
    var s, k := Run(conf, es), KeyOf(r);
    e := s.tree[k];
    LinkCounts(s.exchange, r.code, e.expectCode);
    LinkOk(e, r.code);
    var t := Step(conf, s, Captured(r, o));
    hide IsRequest, IsResponse, IncLinked, IncReceived, Waiting, Awaited;
    assert t.tree == s.tree[k := Link(e, r.code)];
    assert k in t.tree && t.tree[k] == Link(e, r.code);
  }

  /** One that no request awaits is counted as unlinked, unless requests are filtered; no request is touched. */
  lemma ResponseUnlinked(conf: Conf, es: seq<Event>, r: Packet, o: Oracle)
    requires IsResponse(r.code) && (forall n :: !Awaited(conf, es, r, n)) && Passes(conf, r, o, false)
    ensures var s, t := Run(conf, es), Step(conf, Run(conf, es), Captured(r, o));
      && t.tree == s.tree && t.log == s.log && t.created == s.created
      && if conf.filterRequest then t.exchange == s.exchange else CountedOnce(s.exchange, t.exchange, r.code, false)
  {
    hide Run, Awaited;
    var s, k := Run(conf, es), KeyOf(r);
    if k in s.tree {
      AwaitedFound(conf, es, r, s.tree[k].id);
    }
  }

  /** A response that is let through is counted as linked if and only if an outstanding request awaits it. */
  lemma LinkedExactly(conf: Conf, es: seq<Event>, r: Packet, o: Oracle)
    requires IsResponse(r.code) && Passes(conf, r, o, exists n :: Awaited(conf, es, r, n)) && o.timerOk
    ensures var s, t := Run(conf, es), Step(conf, Run(conf, es), Captured(r, o));
      t.exchange[r.code].linked == s.exchange[r.code].linked + 1 <==> exists n :: Awaited(conf, es, r, n)
  {
    hide Run, Awaited, Step;
    if n :| Awaited(conf, es, r, n) {
      var e := ResponseLinked(conf, es, r, o, n);
    } else {
      ResponseUnlinked(conf, es, r, o);
    }
  }

  /** A response refused by a filter takes the request that awaits it along, silently; other refusals change nothing. */
  lemma ResponseRefused(conf: Conf, es: seq<Event>, r: Packet, o: Oracle, n: nat) returns (e: Entry)
    requires IsResponse(r.code) && Awaited(conf, es, r, n) && !Passes(conf, r, o, true)
    ensures var s, t := Run(conf, es), Step(conf, Run(conf, es), Captured(r, o));
      && EntryIs(s, n, e)
      && if (conf.filterResponseCode.Some? && conf.filterResponseCode.value != r.code)
            || ((conf.verify ==> o.verifyOk) && (conf.decode ==> o.decodeOk))
         then t.log == s.log + [Removal(e.(silent := true), Filtered)] && t.created == s.created
              && t.exchange[e.statsReq].lost == s.exchange[e.statsReq].lost
         else t == s.(count := s.count + 1)
  {
    hide Run;
    AwaitedFound(conf, es, r, n);
    var s, k := Run(conf, es), KeyOf(r);
    e := s.tree[k];
    assert e.Ok();
    RequestNotResponse(e.statsReq);
    hide IsRequest, IsResponse, Waiting, Awaited, Removed;
  }

  /** Refused with no request that awaits it, a response leaves no trace. */
  lemma ResponseIgnored(conf: Conf, es: seq<Event>, r: Packet, o: Oracle)
    requires IsResponse(r.code) && (forall n :: !Awaited(conf, es, r, n)) && !Passes(conf, r, o, false)
    ensures Step(conf, Run(conf, es), Captured(r, o)) == Run(conf, es).(count := Run(conf, es).count + 1)
  {
    hide Run, Awaited;
    var s, k := Run(conf, es), KeyOf(r);
    if k in s.tree {
      AwaitedFound(conf, es, r, s.tree[k].id);
    }
  }

  // ----- Requests -----

  /** A request that the checks let through, up to the filter on its attributes. */
  predicate Admitted(conf: Conf, p: Packet, o: Oracle) {
    && (conf.filterRequestCode == None || conf.filterRequestCode == Some(p.code))
    && (conf.verify && (p.code == 4 || p.code == 40 || p.code == 43) ==> o.verifyOk)
    && (conf.decode ==> o.decodeOk) && o.allocOk
  }

  predicate Taken(conf: Conf, p: Packet, o: Oracle) {
    Admitted(conf, p, o) && (conf.filterRequestVps ==> o.passes) && o.timerOk
  }

  /** A request that starts an exchange. */
  function Fresh(conf: Conf, p: Packet, n: nat): Entry {
    Entry(n, p.code, None, p.code, p.vector, None, 0, 0, conf.filterResponseVps)
  }

  /** The same identifier, endpoints and authenticator as an outstanding request: a retransmission of it. */
  lemma RequestRepeats(conf: Conf, es: seq<Event>, p: Packet, o: Oracle, n: nat) returns (e: Entry)
    requires IsRequest(p.code) && Taken(conf, p, o) && Open(conf, es, p, n) && Captures(es)[n - 1].vector == p.vector
    ensures var s, t := Run(conf, es), Step(conf, Run(conf, es), Captured(p, o));
      && EntryIs(s, n, e) && EntryIs(t, n, e.(rtReq := e.rtReq + 1, linked := None, expectCode := p.code))
      && t.log == s.log && t.created == s.created && t.exchange == IncReceived(s.exchange, p.code)
  {
    hide Run;
    OpenFound(conf, es, p, n);
    var s, k := Run(conf, es), ReplyKey(p);
    e := s.tree[k];
    var t := Step(conf, s, Captured(p, o));
    RequestNotResponse(p.code);
    hide IsRequest, IsResponse, Waiting, Open, IncReceived;
    assert t.tree == s.tree[k := Again(e, p)];
    assert k in t.tree && t.tree[k] == Again(e, p);
  }

  /** Another authenticator: the outstanding request is over, reused if it had no answer, and a new one begins. */
  lemma RequestReuses(conf: Conf, es: seq<Event>, p: Packet, o: Oracle, n: nat) returns (e: Entry)
    requires IsRequest(p.code) && Taken(conf, p, o) && Open(conf, es, p, n) && Captures(es)[n - 1].vector != p.vector
    ensures var s, t := Run(conf, es), Step(conf, Run(conf, es), Captured(p, o));
      && EntryIs(s, n, e) && EntryIs(t, s.count + 1, Fresh(conf, p, s.count + 1))
      && t.log == s.log + [Removal(e.(silent := e.linked.None?), if e.linked.None? then Reused else Answered)]
      && t.created == s.created + {s.count + 1}
      && t.exchange[p.code].received == s.exchange[p.code].received + 1
      && t.exchange[p.code].reused == s.exchange[p.code].reused + (if e.linked.None? then 1 else 0)
      && t.exchange[e.statsReq].lost == s.exchange[e.statsReq].lost
  {
    hide Run, ResolveReuse, Tracking, IsRequest, IsResponse, Open, CleanupStats;
    OpenFound(conf, es, p, n);
    var s, k := Run(conf, es), ReplyKey(p);
    e := s.tree[k];
    var s0, gone := s.(count := s.count + 1), e.(silent := e.linked.None?);
    var x := if e.linked.None? then IncReused(s.exchange, p.code) else s.exchange;
    assert e.Ok() && gone.Ok();
    ReuseOutcome(s0, p);
    TrackOutcome(conf, ResolveReuse(s0, p), p);
    CodeOk(e);
    CleanupCounts(x, gone, p.code);
    CleanupCounts(x, gone, e.statsReq);
    RequestNotResponse(p.code);
    var t := Step(conf, s, Captured(p, o));
    assert k in t.tree && t.tree[k] == Fresh(conf, p, s.count + 1);
  }

  lemma ReuseOutcome(s: Sniff, p: Packet)
    requires s.Ok() && IsRequest(p.code) && ReplyKey(p) in s.tree && s.tree[ReplyKey(p)].vector != p.vector
    ensures var k := ReplyKey(p);
      var e := s.tree[k];
      var gone := e.(silent := e.linked.None?);
      var x := if e.linked.None? then IncReused(s.exchange, p.code) else s.exchange;
      gone.Ok() && ResolveReuse(s, p) == s.(tree := s.tree - {k}, exchange := CleanupStats(x, gone),
        log := s.log + [Removal(gone, if e.linked.None? then Reused else Answered)])
  {
    hide IsRequest, IsResponse, CleanupStats, IncReused;
  }

  lemma TrackOutcome(conf: Conf, s: Sniff, p: Packet)
    requires s.Ok() && IsRequest(p.code) && ReplyKey(p) !in s.tree
    ensures Tracking(conf, s, p, true) ==
      s.(tree := s.tree[ReplyKey(p) := Fresh(conf, p, s.count)], created := s.created + {s.count})
  {
    hide IsRequest, IsResponse;
  }

  /** What a cleanup counts of code `c`, apart from retransmissions: a loss at most. */
  lemma CleanupCounts(x: Exchange, e: Entry, c: nat)
    requires ExchangeOk(x) && e.Ok() && c < CODES
    ensures var y := CleanupStats(x, e);
      && y[c].received == x[c].received && y[c].linked == x[c].linked && y[c].unlinked == x[c].unlinked
      && y[c].reused == x[c].reused
      && y[c].lost == x[c].lost + (if c == e.statsReq && e.linked.None? && !e.silent then 1 else 0)
  {
  }

  /** No outstanding request between these endpoints under this identifier: a new one begins. */
  lemma RequestBegins(conf: Conf, es: seq<Event>, p: Packet, o: Oracle)
    requires IsRequest(p.code) && Taken(conf, p, o) && (forall n :: !Open(conf, es, p, n))
    ensures var s, t := Run(conf, es), Step(conf, Run(conf, es), Captured(p, o));
      && EntryIs(t, s.count + 1, Fresh(conf, p, s.count + 1))
      && t.log == s.log && t.created == s.created + {s.count + 1} && t.exchange == IncReceived(s.exchange, p.code)
  {
    hide Run, Open;
    var s, k := Run(conf, es), ReplyKey(p);
    if k in s.tree {
      OpenFound(conf, es, p, s.tree[k].id);
    }
    var t := Step(conf, s, Captured(p, o));
    RequestNotResponse(p.code);
    hide IsRequest, IsResponse, IncReceived;
    assert k in t.tree && t.tree[k] == Fresh(conf, p, s.count + 1);
  }

  /** A request that a check refuses, and a packet that is neither request nor response, leave no trace. */
  lemma RequestIgnored(conf: Conf, s: Sniff, p: Packet, o: Oracle)
    requires s.Ok() && !IsResponse(p.code) && (!IsRequest(p.code) || !Admitted(conf, p, o))
    ensures Step(conf, s, Captured(p, o)) == s.(count := s.count + 1)
  {
  }

  /** A request that only its attributes exclude is not noted, though it ends one it does not repeat. */
  lemma RequestFiltered(conf: Conf, es: seq<Event>, p: Packet, o: Oracle)
    requires IsRequest(p.code) && Admitted(conf, p, o) && conf.filterRequestVps && !o.passes
    ensures var s, t := Run(conf, es), Step(conf, Run(conf, es), Captured(p, o));
      && t.created == s.created && t.exchange[p.code].received == s.exchange[p.code].received
      && (t.tree == s.tree <==> forall n :: Open(conf, es, p, n) ==> Captures(es)[n - 1].vector == p.vector)
  {
    hide Run;
    var s, k := Run(conf, es), ReplyKey(p);
    var t := Step(conf, s, Captured(p, o));
    RequestNotResponse(p.code);
    forall n
      ensures Open(conf, es, p, n) <==> k in s.tree && s.tree[k].id == n
      ensures Open(conf, es, p, n) ==> s.tree[k].vector == Captures(es)[n - 1].vector
    {
      OpenFound(conf, es, p, n);
    }
    hide IsRequest, IsResponse, Waiting, Open;
    assert k in s.tree ==> k !in s.tree - {k};
    if k in s.tree {
      assert Open(conf, es, p, s.tree[k].id);
    }
  }

  // ----- Timers -----

  /** When its timer fires, a request is removed; it is lost if it has no answer and there is no reason for silence. */
  lemma TimerExactly(conf: Conf, es: seq<Event>, n: nat) returns (e: Entry)
    requires Waiting(Run(conf, es), n) && 0 < n <= |Captures(es)|
    ensures var s, q := Run(conf, es), Captures(es)[n - 1];
      var t := Step(conf, s, Expire(Key(q.id, q.dst, q.src)));
      && EntryIs(s, n, e) && t.log == s.log + [Removal(e, Expired)] && t.created == s.created && t.count == s.count
      && IsRequest(q.code)
      && t.exchange[q.code].lost == s.exchange[q.code].lost + (if e.linked.None? && !e.silent then 1 else 0)
  {
    hide Run, Captures;
    var s, q := Run(conf, es), Captures(es)[n - 1];
    OpenFound(conf, es, q, n);
    RunStands(conf, es);
    var k := ReplyKey(q);
    e := s.tree[k];
    assert Stands(Captures(es), k, e) && e.Ok();
    CleanupCounts(s.exchange, e, q.code);
    hide IsRequest, IsResponse, CleanupStats;
  }

  /** A request whose timer cannot be set again when it is answered or repeated is removed and counted nowhere. */
  lemma NoTimerNoCount(conf: Conf, es: seq<Event>, r: Packet, o: Oracle, n: nat) returns (e: Entry)
    requires IsResponse(r.code) && Awaited(conf, es, r, n) && Passes(conf, r, o, true) && !o.timerOk
    ensures var s, t := Run(conf, es), Step(conf, Run(conf, es), Captured(r, o));
      && EntryIs(s, n, e) && t.exchange == s.exchange && t.created == s.created
      && |t.log| == |s.log| + 1 && t.log[..|s.log|] == s.log
      && t.log[|s.log|].entry.id == n && t.log[|s.log|].cause == NoTimer
  {
    hide Run;
    AwaitedFound(conf, es, r, n);
    e := Run(conf, es).tree[KeyOf(r)];
    hide IsRequest, IsResponse, Waiting, Awaited;
  }
}
