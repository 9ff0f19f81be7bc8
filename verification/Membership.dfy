/** Peer status and the failure detector that drives it. */
module Membership {
  import opened Common

  datatype NodeStatus = Unknown | Joining | Active | Suspect | Failed | Leaving

  datatype Peer = Peer(status: NodeStatus, missed: nat)

  datatype Event = NodeFailed | NodeRecovered

  // ----- specification of one heartbeat -----

  function AfterSuccess(p: Peer): Peer {
    Peer(if p.status == Failed || p.status == Unknown then Active else p.status, 0)
  }

  function AfterFailure(p: Peer, threshold: nat): Peer {
    var missed := p.missed + 1;
    if missed >= threshold then Peer(Failed, missed)
    else Peer(if p.status == Active then Suspect else p.status, missed)
  }

  function AfterOutcome(p: Peer, threshold: nat, ok: bool): Peer {
    if ok then AfterSuccess(p) else AfterFailure(p, threshold)
  }

  /** The callback fired by one heartbeat, if any. */
  function EventsOf(p: Peer, threshold: nat, ok: bool): seq<Event> {
    if ok then (if p.status == Failed then [NodeRecovered] else [])
    else if p.status != Failed && AfterFailure(p, threshold).status == Failed then [NodeFailed]
    else []
  }

  // ----- the objects -----

  class Manager {
    const threshold: nat
    var peers: map<NodeID, Peer>

    constructor (members: set<NodeID>, threshold: nat)
      requires threshold > 0
      ensures this.threshold == threshold
      ensures peers.Keys == members && forall n :: n in peers ==> peers[n] == Peer(Unknown, 0)
    {
      this.threshold := threshold;
      peers := map n | n in members :: Peer(Unknown, 0);
    }

    function StatusOf(n: NodeID): NodeStatus
      reads this
    {
      if n in peers then peers[n].status else Unknown
    }

    method RecordHeartbeatSuccess(n: NodeID)
      modifies this
      ensures peers ==
              if n in old(peers) then old(peers)[n := AfterSuccess(old(peers)[n])] else old(peers)
    {
      if n !in peers {
        return;
      }
      var p := peers[n];
      var status := p.status;
      if p.status == Failed || p.status == Unknown {
        status := Active;
      }
      peers := peers[n := Peer(status, 0)];
    }

    method RecordHeartbeatFailure(n: NodeID)
      modifies this
      ensures peers ==
              if n in old(peers) then old(peers)[n := AfterFailure(old(peers)[n], threshold)] else old(peers)
    {
      if n !in peers {
        return;
      }
      var p := peers[n];
      var missed, status := p.missed + 1, p.status;
      if missed >= threshold {
        if status != Failed {
          status := Failed;
        }
      } else if missed > 0 {
        if status == Active {
          status := Suspect;
        }
      }
      peers := peers[n := Peer(status, missed)];
    }

    /** One heartbeat of the failure detector: record the outcome, report the callbacks it fires. */
    method SendHeartbeat(n: NodeID, ok: bool) returns (fired: seq<Event>)
      modifies this
      ensures peers ==
              if n in old(peers) then old(peers)[n := AfterOutcome(old(peers)[n], threshold, ok)] else old(peers)
      ensures fired == if n in old(peers) then EventsOf(old(peers)[n], threshold, ok) else []
    {
      fired := [];
      var previous := StatusOf(n);
      if ok {
        RecordHeartbeatSuccess(n);
        if previous == Failed {
          fired := [NodeRecovered];
        }
      } else {
        RecordHeartbeatFailure(n);
        if previous != Failed && StatusOf(n) == Failed {
          fired := [NodeFailed];
        }
      }
    }
  }

  // ----- histories of heartbeat outcomes -----

  function PeerAfter(threshold: nat, h: seq<bool>): Peer {
    if h == [] then Peer(Unknown, 0) else AfterOutcome(PeerAfter(threshold, h[..|h| - 1]), threshold, h[|h| - 1])
  }

  function Fired(threshold: nat, h: seq<bool>): seq<Event> {
    if h == [] then [] else
      var n := |h| - 1;
      Fired(threshold, h[..n]) + EventsOf(PeerAfter(threshold, h[..n]), threshold, h[n])
  }

  function TrailingMisses(h: seq<bool>): (m: nat)
    ensures m <= |h|
  {
    if h == [] || h[|h| - 1] then 0 else 1 + TrailingMisses(h[..|h| - 1])
  }

  /** The history without its trailing run of successes. */
  function BeforeSuccesses(h: seq<bool>): seq<bool> {
    if h == [] || !h[|h| - 1] then h else BeforeSuccesses(h[..|h| - 1])
  }

  /** Nothing but misses so far. */
  predicate NeverSeen(h: seq<bool>) {
    TrailingMisses(h) == |h|
  }

  /** The status as a function of the whole history. */
  function StatusFromHistory(threshold: nat, h: seq<bool>): NodeStatus {
    if TrailingMisses(h) >= threshold then Failed
    else if NeverSeen(h) then Unknown
    else if TrailingMisses(h) == 0
         && (NeverSeen(BeforeSuccesses(h)) || TrailingMisses(BeforeSuccesses(h)) >= threshold) then Active
    else Suspect
  }

  /** Failure detection matches history: the status is exactly what the outcomes say. A peer is Failed exactly after
      `threshold` misses in a row, and Active exactly when its trailing successes began from never seen or from Failed;
      a peer that missed fewer heartbeats than the threshold stays Suspect however many succeed afterwards. */
  lemma {:induction false} StatusMatchesHistory(threshold: nat, h: seq<bool>)
    requires threshold > 0
    ensures PeerAfter(threshold, h) == Peer(StatusFromHistory(threshold, h), TrailingMisses(h))
  {
    if h != [] {
      var n := |h| - 1;
      StatusMatchesHistory(threshold, h[..n]);
      if h[n] {
        SuccessKeepsStart(h);
      }
    }
  }

  lemma SuccessKeepsStart(h: seq<bool>)
    requires h != [] && h[|h| - 1]
    ensures BeforeSuccesses(h) == BeforeSuccesses(h[..|h| - 1])
    ensures TrailingMisses(h[..|h| - 1]) > 0 ==> BeforeSuccesses(h) == h[..|h| - 1]
  {
  }

  lemma FailedIffMissesReachThreshold(threshold: nat, h: seq<bool>)
    requires threshold > 0
    ensures PeerAfter(threshold, h).status == Failed <==> TrailingMisses(h) >= threshold
    ensures PeerAfter(threshold, h).status == Active ==> h != [] && h[|h| - 1]
  {
    StatusMatchesHistory(threshold, h);
  }

  /** Failed and Recovered strictly alternate, beginning with Failed. */
  predicate Alternates(e: seq<Event>) {
    forall i :: 0 <= i < |e| ==> e[i] == if i % 2 == 0 then NodeFailed else NodeRecovered
  }

  /** The callbacks alternate, and the last one was NodeFailed exactly while the peer is Failed. */
  lemma {:induction false} CallbacksAlternate(threshold: nat, h: seq<bool>)
    requires threshold > 0
    ensures Alternates(Fired(threshold, h))
    ensures |Fired(threshold, h)| % 2 == 1 <==> PeerAfter(threshold, h).status == Failed
  {
    if h != [] {
      CallbacksAlternate(threshold, h[..|h| - 1]);
      FailedIffMissesReachThreshold(threshold, h);
      FailedIffMissesReachThreshold(threshold, h[..|h| - 1]);
    }
  }

  // ----- peers whose status was set from outside -----

  function PeerFrom(p: Peer, threshold: nat, h: seq<bool>): Peer {
    if h == [] then p else AfterOutcome(PeerFrom(p, threshold, h[..|h| - 1]), threshold, h[|h| - 1])
  }

  /** The misses in a row, counting those from before the history when nothing in it succeeded. */
  function Misses(p: Peer, h: seq<bool>): nat {
    if TrailingMisses(h) == |h| then p.missed + |h| else TrailingMisses(h)
  }

  /** The misses never reached the threshold. */
  ghost predicate NeverMissing(p: Peer, threshold: nat, h: seq<bool>) {
    forall k :: 0 < k <= |h| ==> Misses(p, h[..k]) < threshold
  }

  lemma {:induction false} MissesCount(p: Peer, threshold: nat, h: seq<bool>)
    ensures PeerFrom(p, threshold, h).missed == if h == [] then p.missed else Misses(p, h)
  {
    if h != [] {
      MissesCount(p, threshold, h[..|h| - 1]);
    }
  }

  /** A peer that is joining or leaving stays so through any heartbeats, unless its misses reach the threshold; then it
      is Failed, and the next success makes it Active. */
  lemma {:induction false} PlannedStatusStays(p: Peer, threshold: nat, h: seq<bool>)
    requires p.status == Joining || p.status == Leaving
    ensures NeverMissing(p, threshold, h) ==> PeerFrom(p, threshold, h).status == p.status
    ensures h != [] && !h[|h| - 1] && Misses(p, h) >= threshold ==>
              && PeerFrom(p, threshold, h).status == Failed
              && PeerFrom(p, threshold, h + [true]).status == Active
  {
    if h != [] {
      var n := |h| - 1;
      PlannedStatusStays(p, threshold, h[..n]);
      MissesCount(p, threshold, h[..n]);
      MissesCount(p, threshold, h);
      assert h[..|h|] == h && (h + [true])[..|h|] == h;
      assert forall k :: 0 < k <= n ==> h[..n][..k] == h[..k];
    }
  }
}
