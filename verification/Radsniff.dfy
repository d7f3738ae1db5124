/**
  The request/response matcher of radsniff (src/bin/radsniff.c) in 5-tuple mode: captured requests and
  responses, retransmissions, identifier reuse, timers and the statistics tick.
 */
module Radsniff {
  import opened Bytes

  // ----- Packets -----

  const CODES := 54   // FR_RADIUS_CODE_MAX + 1
  const RETRANSMIT_MAX := 5

  const REQUESTS: seq<nat> := [1, 4, 12, 40, 43]
  const RESPONSES: seq<nat> := [2, 3, 5, 11, 13, 41, 42, 44, 45]

  /** The codes reported and cleared at the end of an interval, `rs_useful_codes`. */
  const USEFUL: seq<nat> := [1, 2, 3, 4, 5, 11, 12, 13, 40, 41, 42, 43, 44, 45]

  predicate IsRequest(c: nat): (r: bool)
    ensures r ==> c < CODES
  {
    c in REQUESTS
  }

  predicate IsResponse(c: nat): (r: bool)
    ensures r ==> c < CODES
  {
    c in RESPONSES
  }

  datatype Endpoint = Endpoint(ip: nat, port: nat)

  /** What `fr_packet_cmp` compares. */
  datatype Key = Key(id: byte, src: Endpoint, dst: Endpoint)

  datatype Packet = Packet(code: nat, id: byte, src: Endpoint, dst: Endpoint, vector: seq<byte>)

  function KeyOf(p: Packet): Key { Key(p.id, p.src, p.dst) }

  /** The key of the reply that a request is waiting for. */
  function ReplyKey(p: Packet): Key { Key(p.id, p.dst, p.src) }

  /** Codes whose authenticator can be verified from the request alone. */
  predicate VerifiableRequest(code: nat) { code == 4 || code == 43 || code == 40 }

  // ----- Statistics -----

  /** The counters of one code in the current interval; `rt` has a bin per number of retransmissions. */
  datatype Counters = Counters(received: nat, linked: nat, unlinked: nat, reused: nat, lost: nat, rt: seq<nat>)

  const ZERO := Counters(0, 0, 0, 0, 0, [0, 0, 0, 0, 0, 0])

  /** The counters of every code. */
  type Exchange = seq<Counters>

  predicate ExchangeOk(x: Exchange) {
    |x| == CODES && forall i :: 0 <= i < |x| ==> |x[i].rt| == RETRANSMIT_MAX + 1
  }

  function Bin(n: nat): nat { if n > RETRANSMIT_MAX then RETRANSMIT_MAX else n }

  function IncReceived(x: Exchange, c: nat): (r: Exchange)
    requires ExchangeOk(x) && c < CODES
    ensures ExchangeOk(r)
  {
    x[c := x[c].(received := x[c].received + 1)]
  }

  function IncLinked(x: Exchange, c: nat): (r: Exchange)
    requires ExchangeOk(x) && c < CODES
    ensures ExchangeOk(r)
  {
    x[c := x[c].(linked := x[c].linked + 1)]
  }

  function IncUnlinked(x: Exchange, c: nat): (r: Exchange)
    requires ExchangeOk(x) && c < CODES
    ensures ExchangeOk(r)
  {
    x[c := x[c].(unlinked := x[c].unlinked + 1)]
  }

  function IncReused(x: Exchange, c: nat): (r: Exchange)
    requires ExchangeOk(x) && c < CODES
    ensures ExchangeOk(r)
  {
    x[c := x[c].(reused := x[c].reused + 1)]
  }

  function IncLost(x: Exchange, c: nat): (r: Exchange)
    requires ExchangeOk(x) && c < CODES
    ensures ExchangeOk(r)
  {
    x[c := x[c].(lost := x[c].lost + 1)]
  }

  /** A request or response seen `n` extra times adds to one bin; one seen once adds to none. */
  function IncRetransmits(x: Exchange, c: nat, n: nat): (r: Exchange)
    requires ExchangeOk(x) && c < CODES
    ensures ExchangeOk(r)
  {
    if n == 0 then x else x[c := x[c].(rt := x[c].rt[Bin(n) := x[c].rt[Bin(n)] + 1])]
  }

  lemma NoRetransmits(c: nat)
    requires c < CODES
    ensures forall x: Exchange | ExchangeOk(x) :: IncRetransmits(x, c, 0) == x
  {
  }

  // ----- Requests -----

  /** An outstanding request, `rs_request_t`; the codes say which counters its `stats_*` pointers point to. */
  datatype Entry = Entry(id: nat, statsReq: nat, statsRsp: Option<nat>, expectCode: nat, vector: seq<byte>,
                         linked: Option<nat>, rtReq: nat, rtRsp: nat, silent: bool)
  {
    predicate Ok() {
      && IsRequest(statsReq) && IsRequest(expectCode)
      && (linked.Some? || rtRsp > 0 ==> statsRsp.Some?)
      && (statsRsp.Some? ==> IsResponse(statsRsp.value))
    }
  }

  /** Why a request was removed. */
  datatype Cause = Expired | Reused | Answered | Filtered | NoTimer

  datatype Removal = Removal(entry: Entry, cause: Cause)

  datatype Sniff = Sniff(
    tree: map<Key, Entry>,
    exchange: Exchange,
    count: nat,              // packets captured
    log: seq<Removal>,       // every request removed so far, oldest first
    mark: nat,               // removals before the current interval
    created: set<nat>)       // every request created so far, by packet number
  {
    predicate Ok() {
      mark <= |log| && ExchangeOk(exchange) && forall k :: k in tree ==> tree[k].Ok()
    }
  }

  datatype Conf = Conf(
    filterRequestCode: Option<nat>, filterResponseCode: Option<nat>,
    filterRequest: bool, filterRequestVps: bool, filterResponseVps: bool,
    verify: bool, decode: bool)

  /** What the code outside the matcher answers while a packet is processed. */
  datatype Oracle = Oracle(verifyOk: bool, decodeOk: bool, allocOk: bool, passes: bool, timerOk: bool)

  datatype Event = Captured(p: Packet, o: Oracle) | Expire(key: Key) | Tick

  // ----- Specification -----

  /** What is counted when a request is cleaned up. */
  function CleanupStats(x: Exchange, e: Entry): (r: Exchange)
    requires ExchangeOk(x) && e.Ok()
    ensures ExchangeOk(r)
  {
    var x1 := if !e.silent && e.linked.None? then IncLost(x, e.statsReq) else x;
    var x2 := IncRetransmits(x1, e.statsReq, e.rtReq);
    if e.rtRsp > 0 then IncRetransmits(x2, e.statsRsp.value, e.rtRsp) else x2
  }

  /** `talloc_free` of a request: it leaves the tree. */
  function Freed(s: Sniff, k: Key, e: Entry, cause: Cause): Sniff {
    s.(tree := s.tree - {k}, log := s.log + [Removal(e, cause)])
  }

  /** `rs_packet_cleanup`, with the silent flag it is given. */
  function Cleanup(s: Sniff, k: Key, silent: bool, cause: Cause): (r: Sniff)
    requires s.Ok() && k in s.tree
    ensures r.Ok()
  {
    var e := s.tree[k].(silent := silent);
    Freed(s, k, e, cause).(exchange := CleanupStats(s.exchange, e))
  }

  /** A response that a filter refuses takes its request with it. */
  function DropResponse(s: Sniff, k: Key): (r: Sniff)
    requires s.Ok()
    ensures r.Ok()
  {
    if k in s.tree then Cleanup(s, k, true, Filtered) else s
  }

  /** The request after one more response of code `c` was linked to it. */
  function Link(e: Entry, c: nat): Entry {
    if e.linked.Some? then e.(rtRsp := e.rtRsp + 1, linked := Some(c))
    else e.(statsRsp := Some(c), linked := Some(c))
  }

  lemma CodeOk(e: Entry)
    requires e.Ok()
    ensures e.statsReq < CODES && e.expectCode < CODES
  {
  }

  lemma LinkOk(e: Entry, c: nat)
    requires e.Ok() && IsResponse(c)
    ensures Link(e, c).Ok() && Link(e, c).linked == Some(c) && Link(e, c).expectCode == e.expectCode
  {
  }

  /** A response that passed the checks on the packet itself. */
  function TakeResponse(conf: Conf, s: Sniff, p: Packet, o: Oracle): (r: Sniff)
    requires s.Ok() && IsResponse(p.code)
    ensures r.Ok()
  {
    var k := KeyOf(p);
    if k in s.tree then
      var e := Link(s.tree[k], p.code);
      if !o.timerOk then Freed(s, k, e, NoTimer)
      else
        s.(tree := s.tree[k := e],
           exchange := IncLinked(IncLinked(IncReceived(s.exchange, p.code), p.code), e.expectCode))
    else if conf.filterRequest then s
    else s.(exchange := IncReceived(IncUnlinked(s.exchange, p.code), p.code))
  }

  function Response(conf: Conf, s: Sniff, p: Packet, o: Oracle): (r: Sniff)
    requires s.Ok() && IsResponse(p.code)
    ensures r.Ok()
  {
    var k := KeyOf(p);
    if conf.filterResponseCode.Some? && conf.filterResponseCode.value != p.code then DropResponse(s, k)
    else if conf.verify && k in s.tree && !o.verifyOk then s
    else if conf.decode && !o.decodeOk then s
    else if k in s.tree && conf.filterResponseVps && !o.passes then DropResponse(s, k)
    else TakeResponse(conf, s, p, o)
  }

  /** The session after the 5-tuple check: a request with another authenticator ends the old one. */
  function ResolveReuse(s: Sniff, p: Packet): (r: Sniff)
    requires s.Ok() && IsRequest(p.code)
    ensures r.Ok()
  {
    var k := ReplyKey(p);
    if k !in s.tree || s.tree[k].vector == p.vector then s
    else if s.tree[k].linked.None? then
      Cleanup(s.(exchange := IncReused(s.exchange, p.code)), k, true, Reused)
    else
      Cleanup(s, k, false, Answered)
  }

  /** The request after it was seen once more. */
  function Again(e: Entry, p: Packet): Entry {
    e.(rtReq := e.rtReq + 1, linked := None, expectCode := p.code, vector := p.vector)
  }

  /** The request as retransmitted, or as seen for the first time. */
  function Seen(conf: Conf, s: Sniff, p: Packet): Entry {
    var k := ReplyKey(p);
    if k in s.tree then Again(s.tree[k], p)
    else Entry(s.count, p.code, None, p.code, p.vector, None, 0, 0, conf.filterResponseVps)
  }

  lemma SeenOk(conf: Conf, s: Sniff, p: Packet)
    requires s.Ok() && IsRequest(p.code)
    ensures Seen(conf, s, p).Ok()
  {
  }

  /** The request is in the tree with its timer running; without a timer it is gone. */
  function Tracking(conf: Conf, s: Sniff, p: Packet, timerOk: bool): (r: Sniff)
    requires s.Ok() && IsRequest(p.code)
    ensures r.Ok()
  {
    var k := ReplyKey(p);
    var e := Seen(conf, s, p);
    var s' := if k in s.tree then s else s.(created := s.created + {s.count});
    if !timerOk then Freed(s', k, e, NoTimer) else s'.(tree := s'.tree[k := e])
  }

  function Request(conf: Conf, s: Sniff, p: Packet, o: Oracle): (r: Sniff)
    requires s.Ok() && IsRequest(p.code)
    ensures r.Ok()
  {
    if conf.filterRequestCode.Some? && conf.filterRequestCode.value != p.code then s
    else if conf.verify && VerifiableRequest(p.code) && !o.verifyOk then s
    else if conf.decode && !o.decodeOk then s
    else if !o.allocOk then s
    else
      var s1 := ResolveReuse(s, p);
      if conf.filterRequestVps && !o.passes then s1
      else
        var s2 := Tracking(conf, s1, p, o.timerOk);
        if !o.timerOk then s2 else s2.(exchange := IncReceived(s2.exchange, p.code))
  }

  /** The end of an interval: the counters of the useful codes start again. */
  function Cleared(x: Exchange): (r: Exchange)
    requires ExchangeOk(x)
    ensures ExchangeOk(r)
  {
    seq(CODES, i requires 0 <= i < |x| => if i in USEFUL then ZERO else x[i])
  }

  function Step(conf: Conf, s: Sniff, e: Event): (r: Sniff)
    requires s.Ok()
    ensures r.Ok()
  {
    match e
    case Captured(p, o) =>
      var s' := s.(count := s.count + 1);
      if IsResponse(p.code) then Response(conf, s', p, o)
      else if IsRequest(p.code) then Request(conf, s', p, o)
      else s'
    case Expire(k) => if k in s.tree then Cleanup(s, k, s.tree[k].silent, Expired) else s
    case Tick => s.(exchange := Cleared(s.exchange), mark := |s.log|)
  }

  function NoCounts(): (x: Exchange)
    ensures ExchangeOk(x) && forall i :: 0 <= i < |x| ==> x[i] == ZERO
  {
    seq(CODES, i => ZERO)
  }

  function Start(): Sniff {
    Sniff(map[], NoCounts(), 0, [], 0, {})
  }

  function Run(conf: Conf, es: seq<Event>): (s: Sniff)
    ensures s.Ok()
  {
    if es == [] then Start() else Step(conf, Run(conf, es[..|es| - 1]), es[|es| - 1])
  }

  // ----- The matcher -----

  /** `rs_request_t` */
  class Tracked {
    const id: nat
    var key: Key              // of `expect`
    var expectCode: nat       // of `expect`
    var vector: seq<byte>     // of `expect`
    var hasPacket: bool
    var linked: Option<nat>
    var statsReq: Option<nat>
    var statsRsp: Option<nat>
    var rtReq: nat
    var rtRsp: nat
    var silent: bool
    var inTree: bool
    var armed: bool           // `event` is set

    constructor (id: nat, p: Packet, silent: bool)
      ensures this.id == id && key == ReplyKey(p) && expectCode == p.code && vector == p.vector
      ensures hasPacket && linked == None && statsReq == Some(p.code) && statsRsp == None
      ensures rtReq == 0 && rtRsp == 0 && this.silent == silent && !inTree && !armed
    {
      this.id, key, expectCode, vector := id, ReplyKey(p), p.code, p.vector;
      hasPacket, linked, statsReq, statsRsp := true, None, Some(p.code), None;
      rtReq, rtRsp, this.silent, inTree, armed := 0, 0, silent, false, false;
    }

    ghost function View(): Entry
      reads this
      requires statsReq.Some?
    {
      Entry(id, statsReq.value, statsRsp, expectCode, vector, linked, rtReq, rtRsp, silent)
    }

    /** A response of this code was linked; the timer is off if it had been restarted by an earlier one. */
    method Answer(code: nat)
      requires statsReq.Some?
      modifies this`rtRsp, this`linked, this`armed, this`statsRsp
      ensures View() == Link(old(View()), code)
    {
      if linked.Some? {
        rtRsp := rtRsp + 1;
        linked := None;
        armed := false;
      } else {
        statsRsp := Some(code);
      }
      linked := Some(code);
    }

    /** The request was seen again, so its earlier response may have been lost upstream. */
    method Repeat(p: Packet)
      requires statsReq.Some?
      modifies this`rtReq, this`linked, this`armed, this`vector, this`expectCode
      ensures View() == Again(old(View()), p)
    {
      rtReq := rtReq + 1;
      linked := None;
      vector, expectCode := p.vector, p.code;
      armed := false;
    }

    /** What holds of every member of the tree that is found under `k` and stands for `e`. */
    ghost predicate Member(k: Key, e: Entry)
      reads this
    {
      key == k && inTree && armed && hasPacket && statsReq.Some? && View() == e && e.Ok()
    }
  }

  class Matcher {
    const conf: Conf
    var tree: map<Key, Tracked>
    var exchange: Exchange
    var count: nat
    ghost var entries: map<Key, Entry>   // the members of `tree` as values
    ghost var log: seq<Removal>
    ghost var mark: nat
    ghost var created: set<nat>

    ghost predicate Valid()
      reads this, tree.Values
    {
      && ExchangeOk(exchange) && mark <= |log| && entries.Keys == tree.Keys
      && forall k :: k in tree ==> tree[k].Member(k, entries[k])
    }

    /** Valid, apart from the request under `k` that is being worked on. */
    ghost predicate ValidExcept(k: Key)
      reads this, tree.Values
    {
      && ExchangeOk(exchange) && mark <= |log| && k in tree && entries.Keys + {k} == tree.Keys
      && forall k' :: k' in tree && k' != k ==> tree[k'] != tree[k] && tree[k'].Member(k', entries[k'])
    }

    ghost function View(): Sniff
      reads this
    {
      Sniff(entries, exchange, count, log, mark, created)
    }

    constructor (conf: Conf)
      ensures Valid() && View() == Start() && this.conf == conf
    {
      this.conf, tree, exchange, count := conf, map[], NoCounts(), 0;
      entries, log, mark, created := map[], [], 0, {};
    }

    /** `fr_rb_insert` */
    method Insert(r: Tracked) returns (ok: bool)
      modifies this`tree
      ensures ok == (r.key !in old(tree))
      ensures tree == if ok then old(tree)[r.key := r] else old(tree)
    {
      ok := r.key !in tree;
      if ok {
        tree := tree[r.key := r];
      }
    }

    /** `fr_rb_delete` */
    method Delete(r: Tracked) returns (ok: bool)
      modifies this`tree
      ensures ok == (r.key in old(tree) && old(tree)[r.key] == r)
      ensures tree == if ok then old(tree) - {r.key} else old(tree)
    {
      ok := r.key in tree && tree[r.key] == r;
      if ok {
        tree := tree - {r.key};
      }
    }

    /** `talloc_free` of a request, which runs `_request_free`; its assertion holds. */
    method Free(r: Tracked, ghost cause: Cause)
      requires r.statsReq.Some? && r.inTree && r.key in tree && tree[r.key] == r
      modifies this`tree, this`entries, this`log, r
      ensures tree == old(tree) - {old(r.key)} && entries == old(entries) - {old(r.key)}
      ensures log == old(log) + [Removal(old(r.View()), cause)]
      ensures !r.inTree && !r.armed
    {
      log, entries := log + [Removal(r.View(), cause)], entries - {r.key};
      if r.inTree {
        var ret := Delete(r);
        assert ret;
        r.inTree := false;
      }
      if r.armed {
        r.armed := false;
      }
    }

    /** `rs_packet_cleanup`; its three assertions hold. */
    method PacketCleanup(r: Tracked, ghost cause: Cause)
      requires ExchangeOk(exchange) && r.hasPacket && r.statsReq.Some? && r.View().Ok()
      requires r.inTree && r.key in tree && tree[r.key] == r
      modifies this`tree, this`entries, this`log, this`exchange, r
      ensures tree == old(tree) - {old(r.key)} && entries == old(entries) - {old(r.key)}
      ensures log == old(log) + [Removal(old(r.View()), cause)]
      ensures !r.inTree && !r.armed
      ensures exchange == CleanupStats(old(exchange), old(r.View()))
    {
      hide IncLost, IncRetransmits, ExchangeOk, IsRequest, IsResponse;
      assert r.statsReq.Some?;
      assert r.rtRsp == 0 || r.statsRsp.Some?;
      assert r.hasPacket;
      NoRetransmits(r.statsReq.value);
      if !r.silent {
        if r.linked == None {
          exchange := IncLost(exchange, r.statsReq.value);
        }
      }
      if r.rtReq > 0 {
        exchange := CountRetransmits(exchange, r.statsReq.value, r.rtReq);
      }
      if r.rtRsp > 0 {
        exchange := CountRetransmits(exchange, r.statsRsp.value, r.rtRsp);
      }
      Free(r, cause);
    }

    /** Add to the bin for `n` retransmissions, or to the last bin. */
    static method CountRetransmits(x: Exchange, c: nat, n: nat) returns (r: Exchange)
      requires ExchangeOk(x) && c < CODES && n > 0
      ensures r == IncRetransmits(x, c, n)
    {
      var rt := x[c].rt;
      if n > RETRANSMIT_MAX {
        rt := rt[RETRANSMIT_MAX := rt[RETRANSMIT_MAX] + 1];
      } else {
        rt := rt[n := rt[n] + 1];
      }
      r := x[c := x[c].(rt := rt)];
    }

    /** RS_CLEANUP_NOW, and the cleanup that a timer runs. */
    method CleanupNow(r: Tracked, silent: bool, ghost cause: Cause)
      requires Valid() && r.key in tree && tree[r.key] == r
      modifies this`tree, this`entries, this`log, this`exchange, r
      ensures Valid() && View() == Cleanup(old(View()), old(r.key), silent, cause)
      ensures tree == old(tree) - {old(r.key)} && !r.inTree && !r.armed
    {
      hide CleanupStats, IsRequest, IsResponse;
      r.silent := silent;
      PacketCleanup(r, cause);
    }

    /** The timer of a request fires, `_rs_event`; whatever is freed has its timer off, so it is a member's. */
    method TimerFired(r: Tracked)
      requires Valid() && r.key in tree && tree[r.key] == r
      modifies this`tree, this`entries, this`log, this`exchange, r
      ensures Valid() && View() == Step(conf, old(View()), Expire(old(r.key)))
      ensures !r.inTree && !r.armed
    {
      CleanupNow(r, r.silent, Expired);
    }

    /** The clear step of `rs_stats_process`. */
    method StatsTick()
      requires Valid()
      modifies this`exchange, this`mark
      ensures Valid() && View() == Step(conf, old(View()), Tick)
    {
      ghost var s := View();
      for i := 0 to |USEFUL|
        invariant ExchangeOk(exchange)
        invariant forall c :: 0 <= c < CODES ==>
          exchange[c] == if c in USEFUL[..i] then ZERO else s.exchange[c]
      {
        SplitAt(USEFUL, i);
        exchange := exchange[USEFUL[i] := ZERO];
      }
      assert USEFUL[..|USEFUL|] == USEFUL;
      assert exchange == Cleared(s.exchange);
      mark := |log|;
    }

    /** `fr_event_timer_at` for a request that is in the tree; without a timer the request is freed. */
    method StartTimer(r: Tracked, ghost e: Entry, timerOk: bool)
      requires ValidExcept(r.key) && tree[r.key] == r
      requires r.inTree && r.hasPacket && r.statsReq.Some? && r.View() == e && e.Ok()
      modifies this`tree, this`entries, this`log, r
      ensures Valid()
      ensures var s, k := old(View()), old(r.key);
        View() == if timerOk then s.(tree := s.tree[k := e]) else Freed(s, k, e, NoTimer)
      ensures timerOk ==> tree == old(tree) && r.View() == e
    {
      hide ExchangeOk, Entry.Ok;
      if !timerOk {
        Free(r, NoTimer);
        return;
      }
      r.armed := true;
      entries := entries[r.key := e];
    }

    /** Link a response to its request and restart the timer; without a timer the request goes. */
    method LinkResponse(original: Tracked, code: nat, timerOk: bool)
      requires Valid() && original.key in tree && tree[original.key] == original && IsResponse(code)
      modifies this`tree, this`entries, this`log, original
      ensures Valid()
      ensures var s, k := old(View()), old(original.key);
        View() == if timerOk then s.(tree := s.tree[k := Link(s.tree[k], code)])
                  else Freed(s, k, Link(s.tree[k], code), NoTimer)
      ensures timerOk ==> tree == old(tree) && original.linked == Some(code)
      ensures timerOk ==> original.expectCode == old(original.expectCode)
    {
      hide IsRequest, IsResponse, ExchangeOk, Entry.Ok, Link;
      ghost var e := original.View();
      LinkOk(e, code);
      original.Answer(code);
      StartTimer(original, Link(e, code), timerOk);
    }

    /** Link or count a response, from the point where it is known to be wanted. */
    method CountResponse(original: Tracked?, p: Packet, o: Oracle)
      requires Valid() && IsResponse(p.code)
      requires if KeyOf(p) in tree then original == tree[KeyOf(p)] else original == null
      modifies this`tree, this`entries, this`log, this`exchange, original
      ensures Valid() && View() == TakeResponse(conf, old(View()), p, o)
    {
      hide IncReceived, IncLinked, IncUnlinked, IsRequest, IsResponse, ExchangeOk, Link, Freed, Entry.Ok;
      if original != null {
        LinkResponse(original, p.code, o.timerOk);
        if !o.timerOk {
          return;
        }
      } else {
        if conf.filterRequest {
          return;
        }
        exchange := IncUnlinked(exchange, p.code);
      }
      if original != null {
        CodeOk(original.View());
      }
      CountReceived(p.code, if original != null && original.linked.Some? then Some(original.expectCode) else None);
    }

    /** The counters of a response that was received, and of the request it is linked to. */
    method CountReceived(code: nat, request: Option<nat>)
      requires ExchangeOk(exchange) && code < CODES && (request.Some? ==> request.value < CODES)
      modifies this`exchange
      ensures ExchangeOk(exchange)
      ensures var x := IncReceived(old(exchange), code);
        exchange == if request.Some? then IncLinked(IncLinked(x, code), request.value) else x
    {
      hide IncReceived, IncLinked, ExchangeOk;
      exchange := IncReceived(exchange, code);
      if request.Some? {
        exchange := IncLinked(exchange, code);
        exchange := IncLinked(exchange, request.value);
      }
    }

    /** The response half of `rs_packet_process`. */
    method ResponseCaptured(p: Packet, o: Oracle)
      requires Valid() && IsResponse(p.code)
      modifies this, tree.Values
      ensures Valid() && View() == Response(conf, old(View()), p, o)
    {
      hide IsRequest, IsResponse, Cleanup, ExchangeOk, TakeResponse, Entry.Ok;
      var original: Tracked? := null;
      if KeyOf(p) in tree {
        original := tree[KeyOf(p)];
      }
      if conf.filterResponseCode.Some? && conf.filterResponseCode.value != p.code {
        if original != null {
          CleanupNow(original, true, Filtered);
        }
        return;
      }
      if conf.verify && original != null && !o.verifyOk {
        return;
      }
      if conf.decode && !o.decodeOk {
        return;
      }
      if original != null && conf.filterResponseVps && !o.passes {
        CleanupNow(original, true, Filtered);
        return;
      }
      CountResponse(original, p, o);
    }

    /** The duplicate check of the request half: returns the request this one repeats, if any. */
    method FindOriginal(p: Packet) returns (original: Tracked?)
      requires Valid() && IsRequest(p.code)
      modifies this, tree.Values
      ensures Valid() && View() == ResolveReuse(old(View()), p)
      ensures tree == old(tree) || tree == old(tree) - {ReplyKey(p)}
      ensures if ReplyKey(p) in tree then original == tree[ReplyKey(p)] else original == null
    {
      hide IncReused, CleanupStats, IsRequest, IsResponse, ExchangeOk;
      original := null;
      if ReplyKey(p) in tree {
        original := tree[ReplyKey(p)];
        if original.vector != p.vector {
          if original.linked == None {
            exchange := IncReused(exchange, p.code);
            CleanupNow(original, true, Reused);
          } else {
            CleanupNow(original, false, Answered);
          }
          original := null;
        }
      }
    }

    /** The request half of `rs_packet_process`; no request with the same key is in the tree when one is inserted. */
    method RequestCaptured(p: Packet, o: Oracle)
      requires Valid() && IsRequest(p.code)
      modifies this, tree.Values
      ensures Valid() && View() == Request(conf, old(View()), p, o)
    {
      hide IncReceived, IsRequest, IsResponse, Cleanup, ExchangeOk, ResolveReuse, Tracking, Entry.Ok, VerifiableRequest;
      if conf.filterRequestCode.Some? && conf.filterRequestCode.value != p.code {
        return;
      }
      if conf.verify && VerifiableRequest(p.code) && !o.verifyOk {
        return;
      }
      if conf.decode && !o.decodeOk {
        return;
      }
      if !o.allocOk {
        return;
      }
      var original := FindOriginal(p);
      if conf.filterRequestVps && !o.passes {
        return;
      }
      TrackRequest(original, p, o.timerOk);
      if o.timerOk {
        exchange := IncReceived(exchange, p.code);
      }
    }

    /** Note a request, new or repeated, in the tree, and start its timer. */
    method TrackRequest(found: Tracked?, p: Packet, timerOk: bool)
      requires Valid() && IsRequest(p.code)
      requires if ReplyKey(p) in tree then found == tree[ReplyKey(p)] else found == null
      modifies this`tree, this`entries, this`log, this`created, found
      ensures Valid() && View() == Tracking(conf, old(View()), p, timerOk)
    {
      hide IsRequest, IsResponse, ExchangeOk, Entry.Ok, Seen;
      ghost var s := View();
      SeenOk(conf, s, p);
      var original := Recall(found, p);
      StartTimer(original, Seen(conf, s, p), timerOk);
    }

    /** Update the request that is seen again, or make a new one and insert it. */
    method Recall(found: Tracked?, p: Packet) returns (original: Tracked)
      requires Valid() && IsRequest(p.code)
      requires if ReplyKey(p) in tree then found == tree[ReplyKey(p)] else found == null
      modifies this`tree, this`created, found
      ensures ValidExcept(ReplyKey(p)) && original.key == ReplyKey(p) && tree[original.key] == original
      ensures original.inTree && original.hasPacket && original.statsReq.Some?
      ensures original.View() == Seen(conf, old(View()), p)
      ensures var s := old(View());
        View() == if ReplyKey(p) in s.tree then s else s.(created := s.created + {s.count})
      ensures original == found || fresh(original)
    {
      hide IsRequest, IsResponse, ExchangeOk, Entry.Ok;
      if found != null {
        original := found;
        original.Repeat(p);
      } else {
        original := new Tracked(count, p, conf.filterResponseVps);
        created := created + {count};
        InsertNew(original);
      }
    }

    /** Insert a request that is not in the tree; the assertion that there is no conflict holds. */
    method InsertNew(r: Tracked)
      requires Valid() && !r.inTree && r.key !in tree && forall k :: k in tree ==> tree[k] != r
      modifies this`tree, r`inTree
      ensures tree == old(tree)[r.key := r] && r.inTree && ValidExcept(r.key)
    {
      hide ExchangeOk, Entry.Ok;
      var ret := Insert(r);
      assert ret;
      r.inTree := true;
    }

    /** `rs_packet_process` */
    method PacketCaptured(p: Packet, o: Oracle)
      requires Valid()
      modifies this, tree.Values
      ensures Valid() && View() == Step(conf, old(View()), Captured(p, o))
    {
      hide Response, Request, IsRequest, IsResponse, ExchangeOk, Entry.Ok;
      count := count + 1;
      if IsResponse(p.code) {
        ResponseCaptured(p, o);
      } else if IsRequest(p.code) {
        RequestCaptured(p, o);
      }
    }
  }
}
