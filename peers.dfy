/** The peer figure of the status line torrentd prints each second (torrentd.cpp, the
    `nPeers` computation): the peer count from libtorrent's status when it is nonzero,
    otherwise a sentinel saying why there are no peers. */
module Peers {

  /** What a consumer of the status line learns from the peer figure. */
  datatype PeerStatus =
    | Connected(count: nat)   // a nonzero peer count
    | NoTrackers              // no peer, and the torrent names no tracker
    | NoCurrentTracker        // no peer, and no tracker has answered yet
    | NoPeers                 // no peer, though a tracker is current

  /** The situation the event loop is in, from the same inputs the code tests. */
  function Classify(listPeers: nat, nTrackers: int, currentTracker: string): (s: PeerStatus)
    ensures s.Connected? <==> listPeers != 0
    ensures s.Connected? ==> s.count == listPeers
    ensures s == NoTrackers <==> listPeers == 0 && nTrackers == 0
    ensures s == NoCurrentTracker <==> listPeers == 0 && nTrackers != 0 && currentTracker == ""
  {
    if listPeers != 0 then Connected(listPeers)
    else if nTrackers == 0 then NoTrackers
    else if currentTracker == "" then NoCurrentTracker
    else NoPeers
  }

  /** `nPeers` as printed: `list_peers`, replaced by -1 when it is zero and there is no
      tracker, or by -2 when it is zero and the current tracker is the empty string. */
  function PeerCode(listPeers: int, nTrackers: int, currentTracker: string): (n: int)
    ensures listPeers != 0 ==> n == listPeers
    ensures listPeers == 0 ==> -2 <= n <= 0
  {
    if listPeers != 0 then listPeers
    else if nTrackers == 0 then -1
    else if currentTracker == "" then -2
    else 0
  }

  /** How a reader of the status line decodes the figure. */
  function Decode(n: int): (s: PeerStatus)
    ensures n > 0 ==> s == Connected(n)
    ensures n <= 0 ==> !s.Connected?
  {
    if n > 0 then Connected(n)
    else if n == -1 then NoTrackers
    else if n == -2 then NoCurrentTracker
    else NoPeers
  }

  /** The printed figure loses nothing: since a peer count is never negative, decoding it
      gives back the situation it was computed from, each sentinel included. */
  lemma DecodePeerCode(listPeers: nat, nTrackers: int, currentTracker: string)
    ensures Decode(PeerCode(listPeers, nTrackers, currentTracker))
            == Classify(listPeers, nTrackers, currentTracker)
  {
  }

  /** Distinct situations print distinct figures. */
  lemma PeerCodeInjective(p1: nat, t1: int, c1: string, p2: nat, t2: int, c2: string)
    requires Classify(p1, t1, c1) != Classify(p2, t2, c2)
    ensures PeerCode(p1, t1, c1) != PeerCode(p2, t2, c2)
  {
    DecodePeerCode(p1, t1, c1);
    DecodePeerCode(p2, t2, c2);
  }
}
