/**
  The request list of radclient and the loop that walks it: a doubly linked list with a head and a tail, from
  which the request at hand is freed while the walk goes on.
 */
module Radclient {
  import opened Bytes
  import opened Retries

  /** A packet id, or -1. */
  type Id = i: int | -1 <= i witness -1

  class Request {
    var prev: Request?
    var next: Request?
    var id: Id
    var tries: nat
    var resend: nat
    var done: bool
    var data: bool
    var reply: bool                // `reply` is set
    var fd: int                    // the socket of the id
    var timestamp: int
    const file: nat
    ghost var sent: nat
    ghost var gone: bool
    ghost var events: seq<Event>   // what has happened to the request

    ghost function Record(listed: bool): Progress
      reads this
    {
      Progress(id >= 0, listed, tries, resend, done, data, timestamp, sent, gone)
    }

    constructor (file: nat)
      ensures this.file == file && prev == null && next == null && id == -1 && tries == 0 && resend == 0
      ensures !done && !data && !reply && timestamp == 0 && sent == 0 && !gone && events == []
    {
      this.file, reply, fd := file, false, -1;
      prev, next, id, tries, resend := null, null, -1, 0, 0;
      done, data, timestamp, sent, gone, events := false, false, 0, 0, false, [];
    }
  }

  /**
    What one turn of the walk meets: a reply to some request, the time, the socket and id that are found if any,
    and the fate of what is sent.
   */
  datatype Poll = Poll(replyTo: Request?, verified: bool, decoded: bool, now: int, fd: int, newId: nat, idOk: bool,
                       sentOk: bool)

  function At(s: seq<Request>, i: int): Request? { if 0 <= i < |s| then s[i] else null }

  class Client {
    const conf: Conf
    var head: Request?
    var tail: Request?
    var listed: set<Request>       // the packet list: requests that wait for a reply
    var sockets: set<int>          // the sockets of the packet list
    ghost var nodes: seq<Request>

    constructor (conf: Conf)
      ensures this.conf == conf && nodes == [] && Valid()
    {
      this.conf := conf;
      head, tail, listed, sockets, nodes := null, null, {}, {}, [];
    }

    // ----- The list -----

    /** Head, tail and links represent `nodes`, one finite sequence without repetition. */
    ghost predicate Linked()
      reads `head, `tail, `nodes, nodes`prev, nodes`next
    {
      && (forall i, j :: 0 <= i < j < |nodes| ==> nodes[i] != nodes[j])
      && head == At(nodes, 0) && tail == At(nodes, |nodes| - 1)
      && (forall i {:trigger nodes[i].prev} :: 0 <= i < |nodes| ==> nodes[i].prev == At(nodes, i - 1))
      && (forall i {:trigger nodes[i].next} :: 0 <= i < |nodes| ==> nodes[i].next == At(nodes, i + 1))
    }

    /** The end of the loop of `radclient_init`. */
    method Append(r: Request)
      requires Valid() && r !in nodes && View(r) == FRESH && r.events == [] && !r.reply
      modifies `head, `tail, `nodes, r`prev, r`next, nodes`next
      ensures Valid() && nodes == old(nodes) + [r]
    {
      assert Run(conf, r.events) == FRESH;
      hide Run;
      if head == null {
        assert tail == null;
        head := r;
        r.prev := null;
      } else {
        assert tail.next == null;
        tail.next := r;
        r.prev := tail;
      }
      tail := r;
      r.next := null;
      nodes := nodes + [r];
    }

    /** The assertions of `_rc_request_free`. */
    predicate MayFree(r: Request)
      reads this, r
    {
      && (if r.prev != null then head != r else head != null ==> head == r)
      && (if r.next != null then tail != r else tail != null ==> tail == r)
    }

    /** `_rc_request_free`: its assertions hold, and exactly `r` leaves the list. */
    method Remove(r: Request, ghost k: nat)
      requires Linked() && k < |nodes| && nodes[k] == r
      modifies `head, `tail, `nodes, nodes`prev, nodes`next
      ensures Linked() && nodes == old(nodes[..k] + nodes[k + 1..])
      ensures r.prev == old(r.prev) && r.next == old(r.next)
    {
      ghost var s := nodes;
      var prev, next := r.prev, r.next;
      if prev != null {
        assert head != r;
        prev.next := next;
      } else if head != null {
        assert head == r;
        head := next;
      }
      if next != null {
        assert tail != r;
        next.prev := prev;
      } else if tail != null {
        assert tail == r;
        tail := prev;
      }
      assert Spliced(s, k);
      nodes := nodes[..k] + nodes[k + 1..];
      SplicedLinked(s, k);
    }

    /** The links of `s` lead past the element at `k`. */
    ghost predicate Spliced(s: seq<Request>, k: nat)
      requires k < |s|
      reads this, s
    {
      && (forall i, j :: 0 <= i < j < |s| ==> s[i] != s[j])
      && head == (if k == 0 then At(s, 1) else At(s, 0))
      && tail == (if k == |s| - 1 then At(s, k - 1) else At(s, |s| - 1))
      && (forall i {:trigger s[i].prev} :: 0 <= i < |s| && i != k ==>
            s[i].prev == if i == k + 1 then At(s, k - 1) else At(s, i - 1))
      && (forall i {:trigger s[i].next} :: 0 <= i < |s| && i != k ==>
            s[i].next == if i == k - 1 then At(s, k + 1) else At(s, i + 1))
    }

    lemma SplicedLinked(s: seq<Request>, k: nat)
      requires k < |s| && Spliced(s, k) && nodes == s[..k] + s[k + 1..]
      ensures Linked()
    {
      forall i | 0 <= i < |nodes| ensures nodes[i] == s[if i < k then i else i + 1] {
      }
    }

    /** The assertions allow freeing a listed request always, and one that is in no list exactly from an empty list. */
    lemma FreeAssertions(r: Request)
      requires Linked()
      ensures r in nodes ==> MayFree(r)
      ensures r !in nodes && r.prev == null && r.next == null ==> (MayFree(r) <==> nodes == [])
      ensures MayFree(r) ==> (r.prev == null && head != null <==> head == r)
      ensures MayFree(r) ==> (r.next == null && tail != null <==> tail == r)
    {
    }

    // ----- One request -----

    ghost function View(r: Request): Progress
      reads this, r
    {
      r.Record(r in listed)
    }

    /** A request that is over and has left the list stays where its history led. */
    ghost predicate Ended(r: Request)
      reads r
    {
      r.gone && r.Record(false) == Run(conf, r.events)
    }

    /** Every request is where its own history leads, and a reply can only be matched to a request in the list. */
    ghost predicate Tracked()
      reads this, nodes
    {
      && (forall r :: r in nodes ==> View(r) == Run(conf, r.events) && !r.reply)
      && (forall r :: r in listed ==> r in nodes && r.fd in sockets)
    }

    ghost predicate Valid()
      reads this, nodes
    {
      Linked() && Tracked() && forall r :: r in nodes ==> !r.gone
    }

    /**
      `deallocate_id`, with `fr_packet_list_id_free`: the packet is yanked from the packet list first, and the id is
      given back only if it was there and its socket is found.
     */
    method Deallocate(r: Request)
      modifies `listed, r`id, r`data, r`reply
      ensures (r in old(listed) ==> r.fd in sockets) ==> View(r) == Deallocated(old(View(r)))
      ensures r.id == if old(r.id) >= 0 && r in old(listed) && r.fd in sockets then -1 else old(r.id)
      ensures old(r.id) >= 0 ==> r !in listed && !r.data
      ensures listed == old(listed) || listed == old(listed) - {r}
      ensures r.reply ==> old(r.reply)
    {
      if r.id < 0 {
        return;
      }
      if r in listed {
        listed := listed - {r};
        if r.fd in sockets {
          r.id := -1;
        }
      }
      r.data, r.reply := false, false;
    }

    /** What a reply does to the request it is matched to. */
    method Answer(r: Request, verified: bool, decoded: bool)
      requires Shape(View(r)) && r in listed && r.fd in sockets
      modifies `listed, r`id, r`data, r`done, r`reply
      ensures View(r) == Received(conf, old(View(r)), verified, decoded) && !r.reply
      ensures listed == old(listed) || listed == old(listed) - {r}
    {
      if verified {
        Deallocate(r);
        r.reply := true;
        if decoded {
          if r.resend == conf.resendCount {
            r.done := true;
          }
        }
      }
      r.reply := false;
    }

    /** The same within the client. */
    method Accept(r: Request, p: Poll)
      requires Valid() && r in listed
      modifies `listed, r`id, r`data, r`done, r`reply, r`events
      ensures Valid() && r.events == old(r.events) + [Reply(p.verified, p.decoded)]
    {
      hide Run, Step, Shape, Received, Linked;
      RunShape(conf, r.events);
      RunSnoc(conf, r.events, Reply(p.verified, p.decoded));
      StepReply(conf, View(r), p.verified, p.decoded);
      Answer(r, p.verified, p.decoded);
      r.events := r.events + [Reply(p.verified, p.decoded)];
    }

    /** `recv_one_packet`: a reply to a request that waits for one; any other is dropped. */
    method Receive(p: Poll)
      requires Valid()
      modifies `listed, nodes`id, nodes`data, nodes`done, nodes`reply, nodes`events
      ensures Valid()
      ensures forall r :: r in nodes ==> r.events == old(r.events) + Reaction(r, p, old(listed))
    {
      hide Linked, Run;
      if p.replyTo != null && p.replyTo in listed {
        Accept(p.replyTo, p);
      }
    }

    /** The transmission at the end of `send_one_packet`. */
    method Transmit(r: Request, ok: bool) returns (failed: bool)
      requires r in listed ==> r.fd in sockets
      modifies `listed, r`id, r`data, r`reply, r`done, r`sent, r`gone
      ensures View(r) == Transmitted(old(View(r)), ok) && failed == !ok && (r.reply ==> old(r.reply))
      ensures listed == old(listed) || listed == old(listed) - {r}
    {
      r.sent, r.data := r.sent + 1, true;
      if !ok {
        Deallocate(r);
        r.done, r.gone := true, true;
      }
      return !ok;
    }

    /** `send_one_packet`; its assertions hold. */
    method SendPacket(r: Request, p: Poll) returns (failed: bool)
      requires Shape(View(r)) && !r.done && !r.gone && !r.reply && (r in listed ==> r.fd in sockets)
      modifies `listed, `sockets, r`fd, r`id, r`tries, r`resend, r`done, r`data, r`reply, r`timestamp, r`sent, r`gone
      ensures View(r) == SendOne(conf, old(View(r)), p.now, p.idOk, p.sentOk) && failed == r.gone && !r.reply
      ensures old(listed) - {r} <= listed <= old(listed) + {r}
      ensures old(sockets) <= sockets && (r in listed ==> r.fd in sockets)
    {
      assert !r.done;
      if r.tries == 0 || r.id == -1 {
        assert !r.reply;
        if !p.idOk {
          r.gone := true;
          return true;
        }
        Allocate(r, p);
      } else {
        if p.now - r.timestamp < conf.timeout {
          return false;
        }
        if r.tries == conf.retries {
          GiveUp(r);
          return true;
        }
        r.timestamp, r.tries := p.now, r.tries + 1;
      }
      failed := Transmit(r, p.sentOk);
    }

    /** The first packet, or the first after a reply: it gets an id, on a new socket if there is no other. */
    method Allocate(r: Request, p: Poll)
      requires !r.data
      modifies `listed, `sockets, r`fd, r`id, r`tries, r`resend, r`timestamp
      ensures View(r) == old(View(r)).(hasId := true, listed := true, tries := 1, resend := old(r.resend) + 1,
                                       stamp := p.now)
      ensures listed == old(listed) + {r} && old(sockets) <= sockets && r.fd in sockets
    {
      if p.fd !in sockets {
        sockets := sockets + {p.fd};
      }
      r.fd, r.id, listed := p.fd, p.newId, listed + {r};
      assert r.id != -1 && !r.data;
      r.timestamp, r.tries, r.resend := p.now, 1, r.resend + 1;
    }

    /** No reply after the last retry: the packet is yanked before the id is freed, so the id stays set. */
    method GiveUp(r: Request)
      requires r.id >= 0
      modifies `listed, r`id, r`data, r`reply, r`done, r`gone
      ensures var s := old(View(r));
        View(r) == Deallocated(s.(listed := false)).(done := s.done || s.resend == conf.resendCount, gone := true)
      ensures listed == old(listed) - {r} && r.id == old(r.id) && (r.reply ==> old(r.reply))
    {
      listed := listed - {r};
      Deallocate(r);
      if r.resend == conf.resendCount {
        r.done := true;
      }
      r.gone := true;
    }

    /** The same within the client: a request that fails is no longer in the packet list. */
    method Visit(r: Request, p: Poll) returns (failed: bool)
      requires Valid() && r in nodes && !r.done
      modifies `listed, `sockets, r`fd, r`id, r`tries, r`resend, r`done, r`data, r`reply, r`timestamp, r`sent, r`gone
      modifies r`events
      ensures Linked() && Tracked() && failed == r.gone && (failed ==> r !in listed)
      ensures r.events == old(r.events) + [Send(p.now, p.idOk, p.sentOk)]
      ensures old(listed) - {r} <= listed <= old(listed) + {r}
    {
      hide Run, Step, Shape, SendOne, Linked;
      ghost var e := Send(p.now, p.idOk, p.sentOk);
      RunShape(conf, r.events);
      RunShape(conf, r.events + [e]);
      RunSnoc(conf, r.events, e);
      StepSend(conf, View(r), e);
      failed := SendPacket(r, p);
      r.events := r.events + [e];
      GoneNotListed(View(r));
    }

    // ----- The walk -----

    /** Frees a request that is over; the rest of the list keeps its order. */
    method Free(r: Request, ghost k: nat)
      requires Linked() && Tracked() && k < |nodes| && nodes[k] == r && r !in listed
      requires forall x :: x in nodes && x != r ==> !x.gone
      modifies `head, `tail, `nodes, nodes`prev, nodes`next
      ensures Valid() && nodes == old(nodes[..k] + nodes[k + 1..])
    {
      hide Run;
      Remove(r, k);
    }

    /**
      One turn of the walk at `r`: poll for a reply, then free the request if it is done, else send it if its
      file still may, and free it if that fails.
     */
    method Turn(r: Request, p: Poll, quota: Quota, parallel: nat, ghost k: nat) returns (quota': Quota, fate: Fate)
      requires Valid() && k < |nodes| && nodes[k] == r
      modifies `head, `tail, `listed, `sockets, `nodes, nodes
      ensures Valid() && (r.gone ==> Ended(r))
      ensures nodes == if r.gone then old(nodes[..k] + nodes[k + 1..]) else old(nodes)
      ensures (fate.Over? || fate.Failed? <==> r.gone) && (fate == Sent(r.resend >= conf.resendCount) || !fate.Sent?)
      ensures fate.Waiting? || fate == Fated(conf, old(r.events) + Reaction(r, p, old(listed)), p)
      ensures Allows(quota, r.file, parallel, fate) && quota' == Used(quota, r.file, parallel, fate)
      ensures r.events == old(r.events) + Reaction(r, p, old(listed)) +
        (if fate.Waiting? then [] else [Send(p.now, p.idOk, p.sentOk)])
      ensures forall x :: x in old(nodes) && x != r ==>
        x.events == old(x.events) + Reaction(x, p, old(listed)) && x.resend == old(x.resend)
    {
      hide Linked, Run, Fated, Used, Allows;
      Receive(p);
      FatedOver(conf, r.events, p, quota, r.file, parallel);
      if r.done {
        Retire(r, p);
        Free(r, k);
        quota', fate := quota, Over;
      } else {
        quota', fate := SendIfAllowed(r, p, quota, parallel, k);
      }
    }

    /** The turn of a request that is not done. */
    method SendIfAllowed(r: Request, p: Poll, quota: Quota, parallel: nat, ghost k: nat)
      returns (quota': Quota, fate: Fate)
      requires Valid() && k < |nodes| && nodes[k] == r && !r.done
      modifies `head, `tail, `sockets, `listed, `nodes, nodes`prev, nodes`next
      modifies r`fd, r`id, r`tries, r`resend, r`done, r`data, r`reply, r`timestamp, r`sent, r`gone, r`events
      ensures Valid() && (r.gone ==> Ended(r)) && !fate.Over?
      ensures nodes == if r.gone then old(nodes[..k] + nodes[k + 1..]) else old(nodes)
      ensures (fate.Failed? <==> r.gone) && (fate == Sent(r.resend >= conf.resendCount) || !fate.Sent?)
      ensures fate.Waiting? || fate == Fated(conf, old(r.events), p)
      ensures Allows(quota, r.file, parallel, fate) && quota' == Used(quota, r.file, parallel, fate)
      ensures r.events == old(r.events) + if fate.Waiting? then [] else [Send(p.now, p.idOk, p.sentOk)]
    {
      hide Linked, Run;
      quota', fate := quota, Waiting;
      if r.file != quota.file {
        quota' := Quota(r.file, parallel);
      }
      if quota'.n > 0 {
        quota' := quota'.(n := quota'.n - 1);
        var failed := Visit(r, p);
        if failed {
          Free(r, k);
          fate := Failed;
        } else {
          fate := Sent(r.resend >= conf.resendCount);
        }
      } else {
        assert !r.done && !r.reply;
        assert r.events + [] == r.events;
      }
    }

    /** A visit to a request that is done. */
    ghost method Retire(r: Request, p: Poll)
      requires Valid() && r in nodes && r.done
      modifies r`gone, r`events
      ensures Linked() && Tracked() && r.gone && r !in listed
      ensures r.events == old(r.events) + [Send(p.now, p.idOk, p.sentOk)]
    {
      ghost var e := Send(p.now, p.idOk, p.sentOk);
      RunShape(conf, r.events);
      RunSnoc(conf, r.events, e);
      hide Run;
      r.gone, r.events := true, r.events + [e];
    }

    /**
      A walk on its way: what was freed is over, requests were sent as quotas allow, each fate is what the history
      of the request led to, and the requests ahead have at most heard replies.
     */
    ghost predicate Midway(t: Trip, g: Log)
      reads this, nodes, t.all, g.kept, g.freed
    {
      && Valid() && Walked(t.all, |g.fates|, g.kept, g.freed, nodes)
      && |t.was| == |t.all| && (t.quiet ==> Quiet(t.world))
      && Paced(t.all, g.fates, t.parallel) && Followed(conf, t, g.fates, g.seen) && Leaves(t.all, g.fates, g.freed)
      && (forall r :: r in g.freed ==> Ended(r))
      && (Settled(g.fates) ==> forall r :: r in g.kept ==> r.resend >= conf.resendCount)
      && (forall i :: |g.fates| <= i < |t.all| ==>
            t.all[i].resend == t.was[i].resend && Heard(t.was[i].events, t.all[i].events, t.quiet))
    }

    /** The body of the walk; `next` is read first, and is still the request to go on with. */
    method Advance(r: Request, p: Poll, quota: Quota, parallel: nat, ghost t: Trip, ghost g: Log)
      returns (next: Request?, quota': Quota, fate: Fate, ghost g': Log)
      requires Midway(t, g) && r == At(t.all, |g.fates|) && parallel == t.parallel && p == t.world(|g.fates|)
      requires quota == QuotaAfter(t.all, g.fates, parallel)
      modifies `head, `tail, `listed, `sockets, `nodes, nodes
      ensures Midway(t, g') && g'.fates == g.fates + [fate] && next == At(t.all, |g.fates| + 1)
      ensures quota' == QuotaAfter(t.all, g'.fates, parallel)
    {
      hide Valid, Walked, Allows, Used, Run, Followed, Heard, Fated, Paced, QuotaAfter, Leaves;
      ghost var n := |g.fates|;
      next := r.next;
      WalkAt(t.all, n, g.kept, g.freed, nodes);
      WalkAhead(t.all, n, g.kept, g.freed, nodes);
      NextNode(|g.kept|);
      WalkKeep(t.all, n, g.kept, g.freed, nodes);
      WalkFree(t.all, n, g.kept, g.freed, nodes);
      ghost var h := r.events + Reaction(r, p, listed);
      HeardMore(t.was[n].events, r.events, r, p, listed, t.quiet);
      quota', fate := Turn(r, p, quota, parallel, |g.kept|);
      PacedSnoc(t.all, g.fates, fate, parallel);
      FollowedSnoc(conf, t, g.fates, g.seen, fate, h);
      SettledSnoc(g.fates, fate);
      LeavesSnoc(t.all, g.fates, g.kept, g.freed, old(nodes), fate);
      forall i | n < i < |t.all|
        ensures t.all[i].resend == t.was[i].resend && Heard(t.was[i].events, t.all[i].events, t.quiet)
      {
        HeardMore(t.was[i].events, old(t.all[i].events), t.all[i], p, old(listed), t.quiet);
      }
      g' := Log(g.fates + [fate], g.seen + [h], if r.gone then g.kept else g.kept + [r],
                if r.gone then g.freed + {r} else g.freed);
    }

    /**
      One walk over the list, up to the first request that fails. The walk visits the requests in their order and
      never touches a freed one, and each fate is what the request's history and the world lead to. Exactly the
      requests that are over leave the list. The walk reports the end of the work when every request it met is
      settled and no reply is awaited: then all that are left have been sent often enough if and only if those
      behind a failure had been.
     */
    method Walk(world: nat -> Poll, parallel: nat)
      returns (finished: bool, ghost fates: seq<Fate>, ghost seen: seq<seq<Event>>, ghost freed: set<Request>)
      requires Valid()
      modifies this, nodes
      ensures Valid() && nodes == Without(old(nodes), freed) && forall r :: r in freed ==> Ended(r)
      ensures |fates| <= |old(nodes)| && Paced(old(nodes), fates, parallel)
      ensures |fates| == |old(nodes)| || (fates != [] && fates[|fates| - 1].Failed?)
      ensures forall i :: 0 <= i < |fates| - 1 ==> !fates[i].Failed?
      ensures forall i :: |fates| <= i < |old(nodes)| ==> old(nodes)[i] in nodes
      ensures Leaves(old(nodes), fates, freed)
      ensures |seen| == |fates|
      ensures forall i :: 0 <= i < |fates| ==> fates[i].Waiting? || fates[i] == Fated(conf, seen[i], world(i))
      ensures forall i :: 0 <= i < |fates| ==> Heard(old(nodes[i].events), seen[i], Quiet(world))
      ensures finished <==> Settled(fates) && listed == {}
      ensures finished ==> ((forall r :: r in nodes ==> r.resend >= conf.resendCount)
                       <==> (forall i :: |fates| <= i < |old(nodes)| ==> old(nodes[i].resend) >= conf.resendCount))
      ensures forall i :: |fates| <= i < |old(nodes)| ==> old(nodes)[i].resend == old(nodes[i].resend)
    {
      hide Valid, Midway, Without, Paced, QuotaAfter, Settled, Followed, Heard, Fated, Quiet, Walked, Leaves, Ended,
           Snapshot;
      ghost var t := Trip(nodes, Snapshot(nodes), world, parallel, Quiet(world));
      ghost var g := Log([], [], [], {});
      var quota, turn := Quota(-1, parallel), 0;
      finished := true;
      MidwayStart(t);
      var this_ := head;
      while this_ != null
        invariant Midway(t, g) && turn == |g.fates| <= |t.all| && this_ == At(t.all, turn)
        invariant quota == QuotaAfter(t.all, g.fates, parallel) && finished == Settled(g.fates)
        invariant forall i :: 0 <= i < |g.fates| ==> !g.fates[i].Failed?
        decreases |t.all| - turn
      {
        MidwayWithin(t, g);
        assert forall i :: 0 <= i < |nodes| ==> nodes[i] in old(nodes);
        var fate;
        SettledNext(g.fates);
        this_, quota, fate, g := Advance(this_, world(turn), quota, parallel, t, g);
        turn := turn + 1;
        if fate == Waiting || fate == Sent(false) {
          finished := false;
        }
        if fate == Failed {
          break;
        }
      }
      MidwayEnd(t, g);
      fates, seen, freed := g.fates, g.seen, g.freed;
      if listed != {} {
        finished := false;
      }
    }

    lemma MidwayStart(t: Trip)
      requires Valid() && t.all == nodes && |t.was| == |nodes|
      requires forall i :: 0 <= i < |nodes| ==> t.was[i] == Then(nodes[i].resend, nodes[i].events)
      requires t.quiet ==> Quiet(t.world)
      ensures Midway(t, Log([], [], [], {})) && head == At(nodes, 0)
      ensures QuotaAfter(nodes, [], t.parallel) == Quota(-1, t.parallel) && Settled([])
    {
      hide Valid, Walked, Ended, Quiet;
      HeadNode();
      WalkStart(nodes);
    }

    lemma HeadNode()
      requires Valid()
      ensures head == At(nodes, 0) && forall i, j :: 0 <= i < j < |nodes| ==> nodes[i] != nodes[j]
    {
    }

    lemma MidwayWithin(t: Trip, g: Log)
      requires Midway(t, g)
      ensures forall i :: 0 <= i < |nodes| ==> nodes[i] in t.all
    {
      hide Valid, Followed, Paced, Heard, Settled, Ended;
      forall i | 0 <= i < |nodes| ensures nodes[i] in t.all {
        assert nodes[i] in g.kept || nodes[i] in t.all[|g.fates|..];
      }
    }

    lemma MidwayEnd(t: Trip, g: Log)
      requires Midway(t, g)
      ensures Valid() && nodes == Without(t.all, g.freed) && (forall r :: r in g.freed ==> Ended(r))
      ensures Leaves(t.all, g.fates, g.freed)
      ensures Paced(t.all, g.fates, t.parallel) && |g.seen| == |g.fates| <= |t.was| == |t.all|
      ensures forall i :: 0 <= i < |g.fates| ==> g.fates[i].Waiting? || g.fates[i] == Fated(conf, g.seen[i], t.world(i))
      ensures forall i :: 0 <= i < |g.fates| ==> Heard(t.was[i].events, g.seen[i], t.quiet)
      ensures forall i :: |g.fates| <= i < |t.all| ==> t.all[i] in nodes && t.all[i].resend == t.was[i].resend
      ensures Settled(g.fates) ==> ((forall r :: r in nodes ==> r.resend >= conf.resendCount)
                               <==> (forall i :: |g.fates| <= i < |t.all| ==> t.was[i].resend >= conf.resendCount))
    {
      hide Valid, Paced, Heard, Settled, Ended, Fated;
      WalkEnd(t.all, |g.fates|, g.kept, g.freed, nodes);
    }

    /**
      The main loop for as many rounds as one likes: walks, each followed by waiting for a reply if it sleeps and
      the work has not ended. The list stays intact, what left it is over, and no reply is awaited at the end.
     */
    method Rounds(limit: nat, world: nat -> (nat -> Poll), wait: nat -> Option<Poll>, parallel: nat)
      returns (finished: bool, ghost freed: set<Request>)
      requires Valid()
      modifies this, nodes
      ensures Valid() && nodes == Without(old(nodes), freed) && forall r :: r in freed ==> Ended(r)
      ensures finished ==> listed == {}
    {
      hide Valid, Without, Ended, Fated, Heard, Paced, Quiet, Settled, Leaves;
      ghost var all := nodes;
      finished, freed := false, {};
      WithoutTail([], all, freed);
      assert [] + all == all && Without([], freed) == [] by { NothingLeft(freed); }
      var round := 0;
      while round < limit && !finished
        invariant Valid() && nodes == Without(all, freed) && forall r :: r in freed ==> Ended(r)
        invariant finished ==> listed == {}
      {
        WithoutWithin(all, freed);
        assert forall i :: 0 <= i < |nodes| ==> nodes[i] in old(nodes);
        ghost var fates, seen, more;
        finished, fates, seen, more := Walk(world(round), parallel);
        WithoutTwice(all, freed, more);
        freed := freed + more;
        WithoutWithin(all, freed);
        assert forall i :: 0 <= i < |nodes| ==> nodes[i] in old(nodes);
        if !finished && wait(round).Some? {
          Receive(wait(round).value);
        }
        round := round + 1;
      }
    }

    /** Every request of a run, in the list or freed, keeps to the bounds unless its last reply could not be decoded. */
    lemma WithinBounds(r: Request)
      requires Accepted(conf) && ((Valid() && r in nodes) || Ended(r)) && !LateFailure(conf, r.events)
      ensures r.tries <= conf.retries && r.resend <= conf.resendCount && r.sent <= conf.retries * conf.resendCount
    {
      TransmissionBound(conf, r.events);
      hide Run, LateFailure;
    }

    lemma UnsentNotListed(r: Request)
      requires Valid() && r in nodes && r.resend == 0
      ensures r !in listed && forall x :: x in listed ==> x in nodes
    {
      RunShape(conf, r.events);
    }

    lemma NextNode(k: nat)
      requires Valid() && k < |nodes|
      ensures nodes[k].next == At(nodes, k + 1)
    {
    }
  }

  /** What there was when a walk began, and what it was to meet. */
  datatype Then = Then(resend: nat, events: seq<Event>)

  ghost function Snapshot(s: seq<Request>): (r: seq<Then>)
    reads s
    ensures |r| == |s| && forall i :: 0 <= i < |s| ==> r[i] == Then(s[i].resend, s[i].events)
  {
    if s == [] then [] else Snapshot(s[..|s| - 1]) + [Then(s[|s| - 1].resend, s[|s| - 1].events)]
  }

  datatype Trip = Trip(all: seq<Request>, was: seq<Then>, world: nat -> Poll, parallel: nat, quiet: bool)

  /** What a walk has met: the fates, the histories that led to them, what it kept and what it freed. */
  datatype Log = Log(fates: seq<Fate>, seen: seq<seq<Event>>, kept: seq<Request>, freed: set<Request>)

  /** A world in which no reply arrives. */
  ghost predicate Quiet(world: nat -> Poll) { forall i :: world(i).replyTo == null }

  /** A request that got replies at most, and none in a quiet world. */
  predicate Heard(before: seq<Event>, after: seq<Event>, quiet: bool) {
    && before <= after && (forall i :: |before| <= i < |after| ==> after[i].Reply?)
    && (quiet ==> after == before)
  }

  /** What becomes of a request with this history when it is visited. */
  function Fated(conf: Conf, es: seq<Event>, p: Poll): Fate {
    var s := Run(conf, es + [Send(p.now, p.idOk, p.sentOk)]);
    if Run(conf, es).done then Over else if s.gone then Failed else Sent(s.resend >= conf.resendCount)
  }

  lemma FatedOver(conf: Conf, es: seq<Event>, p: Poll, q: Quota, file: nat, parallel: nat)
    ensures Fated(conf, es, p).Over? <==> Run(conf, es).done
    ensures Allows(q, file, parallel, Over) && Used(q, file, parallel, Over) == q
  {
  }

  ghost predicate Followed(conf: Conf, t: Trip, fates: seq<Fate>, seen: seq<seq<Event>>) {
    && |fates| == |seen| <= |t.was| == |t.all|
    && (forall i :: 0 <= i < |fates| ==> fates[i].Waiting? || fates[i] == Fated(conf, seen[i], t.world(i)))
    && (forall i :: 0 <= i < |fates| ==> Heard(t.was[i].events, seen[i], t.quiet))
  }

  lemma FollowedSnoc(conf: Conf, t: Trip, fates: seq<Fate>, seen: seq<seq<Event>>, fate: Fate, h: seq<Event>)
    requires Followed(conf, t, fates, seen) && |fates| < |t.all|
    requires fate.Waiting? || fate == Fated(conf, h, t.world(|fates|))
    requires Heard(t.was[|fates|].events, h, t.quiet)
    ensures Followed(conf, t, fates + [fate], seen + [h])
  {
    hide Heard, Fated;
  }

  /** One more reply may be heard. */
  lemma HeardMore(before: seq<Event>, after: seq<Event>, r: Request, p: Poll, listed: set<Request>, quiet: bool)
    requires Heard(before, after, quiet) && (quiet ==> p.replyTo == null)
    ensures Heard(before, after + Reaction(r, p, listed), quiet)
  {
    assert after + [] == after;
  }

  /** What became of a request in its turn; a request that was sent may have been sent often enough. */
  datatype Fate = Over | Failed | Sent(enough: bool) | Waiting

  /** Every request is over, failed, or sent often enough. */
  predicate Settled(fates: seq<Fate>) {
    forall i :: 0 <= i < |fates| ==> fates[i] != Waiting && fates[i] != Sent(false)
  }

  /** Exactly the requests that were over or failed were freed. */
  predicate Leaves(all: seq<Request>, fates: seq<Fate>, freed: set<Request>) {
    && |fates| <= |all|
    && forall i :: 0 <= i < |fates| ==> (all[i] in freed <==> fates[i].Over? || fates[i].Failed?)
  }

  lemma LeavesSnoc(all: seq<Request>, fates: seq<Fate>, kept: seq<Request>, freed: set<Request>, nodes: seq<Request>,
                   fate: Fate)
    requires Walked(all, |fates|, kept, freed, nodes) && |fates| < |all| && Leaves(all, fates, freed)
    ensures fate.Over? || fate.Failed? ==> Leaves(all, fates + [fate], freed + {all[|fates|]})
    ensures !fate.Over? && !fate.Failed? ==> Leaves(all, fates + [fate], freed)
  {
    assert nodes[|kept|] == all[|fates|];
  }

  lemma SettledSnoc(fates: seq<Fate>, fate: Fate)
    ensures Settled(fates + [fate]) <==> Settled(fates) && fate != Waiting && fate != Sent(false)
  {
    var more := fates + [fate];
    assert more[|fates|] == fate;
    assert forall i :: 0 <= i < |fates| ==> more[i] == fates[i];
  }

  lemma SettledNext(fates: seq<Fate>)
    ensures forall f :: Settled(fates + [f]) <==> Settled(fates) && f != Waiting && f != Sent(false)
  {
    forall f
      ensures Settled(fates + [f]) <==> Settled(fates) && f != Waiting && f != Sent(false)
    {
      SettledSnoc(fates, f);
    }
  }

  /** How many requests of the file at hand may still be sent in this walk. */
  datatype Quota = Quota(file: int, n: nat)

  function Left(q: Quota, file: nat, parallel: nat): nat { if file != q.file then parallel else q.n }

  function Used(q: Quota, file: nat, parallel: nat, fate: Fate): Quota {
    if fate.Over? then q else Quota(file, if Left(q, file, parallel) > 0 then Left(q, file, parallel) - 1 else 0)
  }

  predicate Allows(q: Quota, file: nat, parallel: nat, fate: Fate) {
    fate.Over? || (fate.Waiting? <==> Left(q, file, parallel) == 0)
  }

  function QuotaAfter(all: seq<Request>, fates: seq<Fate>, parallel: nat): Quota
    requires |fates| <= |all|
  {
    if fates == [] then Quota(-1, parallel)
    else
      var i := |fates| - 1;
      Used(QuotaAfter(all, fates[..i], parallel), all[i].file, parallel, fates[i])
  }

  /** A request waits exactly when its file has used up its quota. */
  predicate Paced(all: seq<Request>, fates: seq<Fate>, parallel: nat)
  {
    fates == [] || (|fates| <= |all| &&
    var i := |fates| - 1;
    Paced(all, fates[..i], parallel) && Allows(QuotaAfter(all, fates[..i], parallel), all[i].file, parallel, fates[i]))
  }

  lemma PacedSnoc(all: seq<Request>, fates: seq<Fate>, fate: Fate, parallel: nat)
    requires |fates| < |all|
    ensures (fates + [fate])[..|fates|] == fates
    ensures QuotaAfter(all, fates + [fate], parallel)
         == Used(QuotaAfter(all, fates, parallel), all[|fates|].file, parallel, fate)
    ensures Paced(all, fates + [fate], parallel)
       <==> Paced(all, fates, parallel) && Allows(QuotaAfter(all, fates, parallel), all[|fates|].file, parallel, fate)
  {
    assert (fates + [fate])[..|fates|] == fates;
  }

  /** The requests of a list that are not in `freed`, in their order. */
  function Without(s: seq<Request>, freed: set<Request>): seq<Request> {
    if s == [] then [] else Without(s[..|s| - 1], freed) + if s[|s| - 1] in freed then [] else [s[|s| - 1]]
  }

  lemma {:induction false} WithoutMore(s: seq<Request>, freed: set<Request>, r: Request)
    requires r !in s
    ensures Without(s, freed + {r}) == Without(s, freed)
  {
    if s != [] {
      WithoutMore(s[..|s| - 1], freed, r);
    }
  }

  lemma {:induction false} WithoutTail(s: seq<Request>, t: seq<Request>, freed: set<Request>)
    requires forall r :: r in t ==> r !in freed
    ensures Without(s + t, freed) == Without(s, freed) + t
  {
    if t == [] {
      assert s + t == s;
    } else {
      WithoutTail(s, t[..|t| - 1], freed);
      assert (s + t)[..|s + t| - 1] == s + t[..|t| - 1];
    }
  }

  lemma NothingLeft(freed: set<Request>)
    ensures Without([], freed) == []
  {
  }

  lemma {:induction false} WithoutWithin(s: seq<Request>, freed: set<Request>)
    ensures forall i :: 0 <= i < |Without(s, freed)| ==> Without(s, freed)[i] in s && Without(s, freed)[i] !in freed
    ensures forall r :: r in freed ==> r !in Without(s, freed)
  {
    if s != [] {
      WithoutWithin(s[..|s| - 1], freed);
    }
  }

  lemma {:induction false} WithoutTwice(s: seq<Request>, f: set<Request>, g: set<Request>)
    ensures Without(Without(s, f), g) == Without(s, f + g)
  {
    if s != [] {
      var front, last := s[..|s| - 1], s[|s| - 1];
      WithoutTwice(front, f, g);
      var w := Without(front, f);
      if last in f {
        assert w + [] == w;
      } else {
        assert (w + [last])[..|w|] == w;
      }
    }
  }

  /** A walk over `all` that has come to `turn`, with `kept` of the requests behind it still in the list. */
  ghost predicate Walked(all: seq<Request>, turn: nat, kept: seq<Request>, freed: set<Request>, nodes: seq<Request>) {
    && turn <= |all| && nodes == kept + all[turn..] && kept == Without(all[..turn], freed)
    && (forall i, j :: 0 <= i < j < |all| ==> all[i] != all[j])
    && (forall r :: r in freed ==> r in all[..turn] && r !in nodes)
    && (forall r :: r in kept ==> r in all[..turn])
  }

  lemma WalkStart(all: seq<Request>)
    requires forall i, j :: 0 <= i < j < |all| ==> all[i] != all[j]
    ensures Walked(all, 0, [], {}, all)
  {
    assert [] + all[0..] == all;
  }

  lemma WalkAt(all: seq<Request>, turn: nat, kept: seq<Request>, freed: set<Request>, nodes: seq<Request>)
    requires Walked(all, turn, kept, freed, nodes) && At(all, turn) != null
    ensures turn < |all| && |kept| < |nodes| && nodes[|kept|] == all[turn] && all[turn] !in kept
    ensures At(nodes, |kept| + 1) == At(all, turn + 1)
    ensures forall r :: r in kept ==> r in nodes
    ensures forall r :: r in freed ==> r !in nodes
  {
  }

  /** The requests ahead are still in the list. */
  lemma WalkAhead(all: seq<Request>, turn: nat, kept: seq<Request>, freed: set<Request>, nodes: seq<Request>)
    requires Walked(all, turn, kept, freed, nodes) && turn < |all|
    ensures forall i :: turn <= i < |all| ==> all[i] in nodes
    ensures forall i :: turn < i < |all| ==> all[i] != all[turn]
  {
    forall i | turn <= i < |all| ensures all[i] in nodes {
      assert nodes[|kept| + (i - turn)] == all[i];
    }
  }

  lemma WalkKeep(all: seq<Request>, turn: nat, kept: seq<Request>, freed: set<Request>, nodes: seq<Request>)
    requires Walked(all, turn, kept, freed, nodes) && turn < |all|
    ensures Walked(all, turn + 1, kept + [all[turn]], freed, nodes)
  {
    var r := all[turn];
    assert all[..turn + 1][..turn] == all[..turn];
    assert all[turn..] == [r] + all[turn + 1..];
    assert r in nodes;
  }

  lemma WalkFree(all: seq<Request>, turn: nat, kept: seq<Request>, freed: set<Request>, nodes: seq<Request>)
    requires Walked(all, turn, kept, freed, nodes) && turn < |all| && |kept| < |nodes|
    ensures Walked(all, turn + 1, kept, freed + {all[turn]}, nodes[..|kept|] + nodes[|kept| + 1..])
  {
    var r := all[turn];
    assert all[..turn + 1][..turn] == all[..turn];
    assert nodes[..|kept|] == kept && nodes[|kept| + 1..] == all[turn + 1..];
    assert r !in all[..turn] && r !in all[turn + 1..];
    WithoutMore(all[..turn], freed, r);
  }

  lemma WalkEnd(all: seq<Request>, turn: nat, kept: seq<Request>, freed: set<Request>, nodes: seq<Request>)
    requires Walked(all, turn, kept, freed, nodes)
    ensures nodes == Without(all, freed)
    ensures At(all, turn) == null ==> nodes == kept
  {
    WithoutTail(all[..turn], all[turn..], freed);
    assert all[..turn] + all[turn..] == all;
  }

  /** The event that a reply is for the request `r`. */
  function Reaction(r: Request, p: Poll, listed: set<Request>): seq<Event> {
    if r == p.replyTo && r in listed then [Reply(p.verified, p.decoded)] else []
  }

  lemma StepReply(conf: Conf, s: Progress, verified: bool, decoded: bool)
    requires s.listed && !s.gone
    ensures Step(conf, s, Reply(verified, decoded)) == Received(conf, s, verified, decoded)
    ensures !Received(conf, s, verified, decoded).gone
  {
  }

  lemma StepSend(conf: Conf, s: Progress, e: Event)
    requires e.Send? && !s.gone && !s.done
    ensures Step(conf, s, e) == SendOne(conf, s, e.now, e.idOk, e.sentOk)
  {
  }

  lemma GoneNotListed(s: Progress)
    requires Shape(s)
    ensures s.gone ==> !s.listed
  {
  }

  /** The packets sent in a stretch of the walk. */
  function Sends(fates: seq<Fate>): nat {
    if fates == [] then 0
    else Sends(fates[..|fates| - 1]) + if fates[|fates| - 1].Sent? || fates[|fates| - 1].Failed? then 1 else 0
  }

  /** Of requests of one file that stand together, one walk sends at most `parallel`. */
  lemma {:induction false} WindowKept(all: seq<Request>, fates: seq<Fate>, parallel: nat, from: nat, file: nat)
    requires Paced(all, fates, parallel) && from <= |fates| <= |all|
    requires forall i :: from <= i < |fates| ==> all[i].file == file
    ensures Sends(fates[from..]) + Left(QuotaAfter(all, fates, parallel), file, parallel) <= parallel
    decreases |fates|
  {
    if from == |fates| {
      QuotaSmall(all, fates, parallel);
    } else {
      var front := fates[..|fates| - 1];
      WindowKept(all, front, parallel, from, file);
      assert fates[from..][..|fates| - 1 - from] == front[from..];
    }
  }

  /** The requests that were not over in a stretch of the walk. */
  function Live(fates: seq<Fate>): nat {
    if fates == [] then 0 else Live(fates[..|fates| - 1]) + if fates[|fates| - 1].Over? then 0 else 1
  }

  /** The walk comes from another file: the last request before that was not over is of one. */
  predicate OtherFile(all: seq<Request>, fates: seq<Fate>, file: nat)
    requires |fates| <= |all|
  {
    if fates == [] then true
    else if fates[|fates| - 1].Over? then OtherFile(all, fates[..|fates| - 1], file)
    else all[|fates| - 1].file != file
  }

  lemma {:induction false} OtherFileQuota(all: seq<Request>, fates: seq<Fate>, parallel: nat, file: nat)
    requires |fates| <= |all| && OtherFile(all, fates, file)
    ensures QuotaAfter(all, fates, parallel).file != file
  {
    if fates != [] && fates[|fates| - 1].Over? {
      OtherFileQuota(all, fates[..|fates| - 1], parallel, file);
    }
  }

  /**
    Of requests of one file that stand together and are not over, the first `parallel` are sent and the others wait.
   */
  lemma {:induction false} WindowExactly(all: seq<Request>, fates: seq<Fate>, parallel: nat, from: nat, file: nat)
    requires Paced(all, fates, parallel) && from < |fates| <= |all| && OtherFile(all, fates[..from], file)
    requires forall i :: from <= i < |fates| ==> all[i].file == file
    ensures var before, last := Live(fates[from..|fates| - 1]), fates[|fates| - 1];
      && (!last.Over? ==> (last.Waiting? <==> before >= parallel))
      && Left(QuotaAfter(all, fates, parallel), file, parallel) ==
           if Live(fates[from..]) <= parallel then parallel - Live(fates[from..]) else 0
    decreases |fates|
  {
    var front := fates[..|fates| - 1];
    assert fates[from..][..|fates| - 1 - from] == front[from..] == fates[from..|fates| - 1];
    if from == |front| {
      assert front == fates[..from];
      OtherFileQuota(all, front, parallel, file);
      assert Live(front[from..]) == 0;
    } else {
      assert front[..from] == fates[..from];
      WindowExactly(all, front, parallel, from, file);
    }
  }

  lemma {:induction false} QuotaSmall(all: seq<Request>, fates: seq<Fate>, parallel: nat)
    requires |fates| <= |all|
    ensures QuotaAfter(all, fates, parallel).n <= parallel
  {
    if fates != [] {
      QuotaSmall(all, fates[..|fates| - 1], parallel);
    }
  }

  /**
    A walk that reports the end with a request that was never sent: no id is found for the one before it.
   */
  method FailedSendAbandons(conf: Conf, now: int) returns (c: Client, left: Request, finished: bool)
    requires Accepted(conf)
    ensures fresh(c) && c.conf == conf && c.Valid()
    ensures finished && left in c.nodes && left.resend == 0 < conf.resendCount
  {
    hide Run, Client.Linked, Client.Tracked, Paced, Leaves, Without, Fated, Quiet, Settled;
    c := new Client(conf);
    var first := new Request(0);
    left := new Request(0);
    c.Append(first);
    c.Append(left);
    var p := Poll(null, false, false, now, 0, 0, false, false);
    ghost var fates, seen, freed;
    assert c.nodes == [first, left];
    var world := (i: nat) => p;
    assert Quiet(world) by { AllQuiet(world); }
    finished, fates, seen, freed := c.Walk(world, 1);
    FirstFails(conf, seen[0], p);
    OnlyFirstFailed(first, left, fates, freed);
    c.UnsentNotListed(left);
  }

  lemma AllQuiet(world: nat -> Poll)
    requires forall i: nat :: world(i).replyTo == null
    ensures Quiet(world)
  {
  }

  lemma OnlyFirstFailed(first: Request, left: Request, fates: seq<Fate>, freed: set<Request>)
    requires first != left && Paced([first, left], fates, 1) && Leaves([first, left], fates, freed) && fates != []
    requires (fates[0].Waiting? || fates[0].Failed?) && (forall i :: 0 <= i < |fates| - 1 ==> !fates[i].Failed?)
    requires forall i :: |fates| <= i < 2 ==> [first, left][i] in Without([first, left], freed)
    ensures fates == [Failed] && Without([first, left], freed) == [left] && Settled(fates)
  {
    FirstNotWaiting([first, left], fates, 1);
    assert [first, left][1] == left;
    WithoutWithin([first, left], freed);
    assert left !in freed && first in freed;
    assert [first, left][..1] == [first] && [first][..0] == [];
    assert Without([first], freed) == Without([], freed) + [];
  }

  /** The first request of a walk is not made to wait. */
  lemma {:induction false} FirstNotWaiting(all: seq<Request>, fates: seq<Fate>, parallel: nat)
    requires parallel > 0 && fates != [] && Paced(all, fates, parallel)
    ensures !fates[0].Waiting?
    decreases |fates|
  {
    if |fates| > 1 {
      FirstNotWaiting(all, fates[..|fates| - 1], parallel);
    } else {
      assert fates[..0] == [];
    }
  }

  lemma FirstFails(conf: Conf, es: seq<Event>, p: Poll)
    requires es == [] && !p.idOk
    ensures Fated(conf, es, p) == Failed
  {
    RunSnoc(conf, [], Send(p.now, p.idOk, p.sentOk));
  }
}
