/**
 * The longest-valid-chain rule: peers are scanned in order and a peer's
 * chain becomes the candidate when its reported length beats the best so far
 * and the chain is valid.
 */
module Consensus {
  import opened Wrappers
  import opened Blocks
  import opened Validation

  /** What one peer answered: the HTTP status, the reported length and the chain snapshot. */
  datatype PeerResponse = PeerResponse(status: int, length: int, chain: seq<Block>)

  const StatusOk: int := 200

  /** A response the rule may adopt: successful, with a non-empty valid chain. */
  predicate Eligible(c: Crypto, p: PeerResponse)
  {
    p.status == StatusOk && p.chain != [] && IsValidChain(c, p.chain)
  }

  /**
   * The scan over the remaining peers, given the longest length seen so far
   * and the candidate chain so far. Validating an empty chain raises
   * IndexError, which aborts the whole pass; the validator only runs on
   * responses whose reported length beats the current maximum.
   */
  function Scan(c: Crypto, maxLength: int, best: Option<seq<Block>>, peers: seq<PeerResponse>):
    Result<Option<seq<Block>>, Error>
    decreases |peers|
  {
    if peers == [] then Success(best)
    else
      var p := peers[0];
      if p.status == StatusOk && p.length > maxLength then
        if p.chain == [] then Failure(IndexError)
        else if IsValidChain(c, p.chain) then Scan(c, p.length, Some(p.chain), peers[1..])
        else Scan(c, maxLength, best, peers[1..])
      else Scan(c, maxLength, best, peers[1..])
  }

  /**
   * Peer k is what the rule picks over a starting length m: eligible, longer
   * than m, at least as long as every eligible peer, and strictly longer than
   * every eligible peer before it.
   */
  ghost predicate FirstLongest(c: Crypto, m: int, peers: seq<PeerResponse>, k: int)
  {
    && 0 <= k < |peers|
    && Eligible(c, peers[k])
    && peers[k].length > m
    && (forall j :: 0 <= j < |peers| && Eligible(c, peers[j]) ==> peers[j].length <= peers[k].length)
    && (forall j :: 0 <= j < k && Eligible(c, peers[j]) ==> peers[j].length < peers[k].length)
  }

  /** No eligible peer reports a length above m. */
  ghost predicate NoneLonger(c: Crypto, m: int, peers: seq<PeerResponse>)
  {
    forall j :: 0 <= j < |peers| && Eligible(c, peers[j]) ==> peers[j].length <= m
  }

  /** A successful scan either keeps the candidate it started with or picks the first longest eligible peer. */
  lemma {:induction false} ScanPicksFirstLongest(c: Crypto, m: int, best: Option<seq<Block>>, peers: seq<PeerResponse>)
    requires Scan(c, m, best, peers).Success?
    ensures var x := Scan(c, m, best, peers).value;
      || (x == best && NoneLonger(c, m, peers))
      || (exists k :: FirstLongest(c, m, peers, k) && x == Some(peers[k].chain))
    decreases |peers|
  {
    if peers == [] {
      return;
    }
    var p, rest := peers[0], peers[1..];
    var x := Scan(c, m, best, peers).value;
    assert forall j :: 0 < j < |peers| ==> peers[j] == rest[j - 1];
    if p.status == StatusOk && p.length > m && IsValidChain(c, p.chain) {
      assert p.chain != [] && Eligible(c, p);
      ScanPicksFirstLongest(c, p.length, Some(p.chain), rest);
      if x == Some(p.chain) && NoneLonger(c, p.length, rest) {
        assert FirstLongest(c, m, peers, 0);
      } else {
        var k' :| FirstLongest(c, p.length, rest, k') && x == Some(rest[k'].chain);
        assert FirstLongest(c, m, peers, k' + 1);
      }
    } else {
      assert Eligible(c, p) ==> p.length <= m;
      ScanPicksFirstLongest(c, m, best, rest);
      if x == best && NoneLonger(c, m, rest) {
        assert NoneLonger(c, m, peers);
      } else {
        var k' :| FirstLongest(c, m, rest, k') && x == Some(rest[k'].chain);
        assert FirstLongest(c, m, peers, k' + 1);
      }
    }
  }

  /** A scan fails only on a successful response with an empty chain whose reported length beats the start. */
  lemma {:induction false} ScanFailsOnEmptyChain(c: Crypto, m: int, best: Option<seq<Block>>, peers: seq<PeerResponse>)
    requires Scan(c, m, best, peers).Failure?
    ensures Scan(c, m, best, peers).error == IndexError
    ensures exists k :: 0 <= k < |peers| && peers[k].status == StatusOk && peers[k].chain == [] && peers[k].length > m
    decreases |peers|
  {
    var p, rest := peers[0], peers[1..];
    if p.status == StatusOk && p.length > m && p.chain == [] {
      assert peers[0] == p;
    } else {
      var m' := if p.status == StatusOk && p.length > m && IsValidChain(c, p.chain) then p.length else m;
      var best' := if p.status == StatusOk && p.length > m && IsValidChain(c, p.chain) then Some(p.chain) else best;
      assert Scan(c, m, best, peers) == Scan(c, m', best', rest);
      ScanFailsOnEmptyChain(c, m', best', rest);
      var k :| 0 <= k < |rest| && rest[k].status == StatusOk && rest[k].chain == [] && rest[k].length > m';
      assert peers[k + 1] == rest[k];
    }
  }

  /**
   * Resolution from a local chain of length n: the local chain is kept
   * exactly when no eligible peer reports more than n, and otherwise the
   * adopted chain is that of the first longest eligible peer. Equal lengths
   * never replace the local chain.
   */
  lemma ResolveSelectsLongestValid(c: Crypto, n: int, peers: seq<PeerResponse>)
    requires Scan(c, n, None, peers).Success?
    ensures Scan(c, n, None, peers).value.None? <==> NoneLonger(c, n, peers)
    ensures Scan(c, n, None, peers).value.Some? ==>
      exists k :: FirstLongest(c, n, peers, k) && Scan(c, n, None, peers).value.value == peers[k].chain
  {
    ScanPicksFirstLongest(c, n, None, peers);
    if Scan(c, n, None, peers).value.Some? {
      var k :| FirstLongest(c, n, peers, k) && Scan(c, n, None, peers).value == Some(peers[k].chain);
      assert Eligible(c, peers[k]) && peers[k].length > n;
    }
  }

  /** A chain that resolution adopts is non-empty and valid. */
  lemma AdoptedChainValid(c: Crypto, n: int, peers: seq<PeerResponse>)
    requires Scan(c, n, None, peers).Success? && Scan(c, n, None, peers).value.Some?
    ensures Scan(c, n, None, peers).value.value != []
    ensures IsValidChain(c, Scan(c, n, None, peers).value.value)
  {
    ResolveSelectsLongestValid(c, n, peers);
  }

  /** When every peer reports its chain's true length, an adopted chain is strictly longer than the local one. */
  lemma HonestPeersGiveLongerChain(c: Crypto, n: int, peers: seq<PeerResponse>)
    requires forall k :: 0 <= k < |peers| ==> peers[k].length == |peers[k].chain|
    requires Scan(c, n, None, peers).Success? && Scan(c, n, None, peers).value.Some?
    ensures |Scan(c, n, None, peers).value.value| > n
  {
    ResolveSelectsLongestValid(c, n, peers);
  }

  /**
   * Only the reported length is compared: any valid non-empty chain whose
   * reported length beats the local length n is adopted, however short it
   * really is (a one-block chain reported as length 4 replaces three blocks).
   */
  lemma ReportedLengthIsTrusted(c: Crypto, n: int, reported: int, ch: seq<Block>)
    requires ch != [] && IsValidChain(c, ch)
    requires reported > n
    ensures Scan(c, n, None, [PeerResponse(StatusOk, reported, ch)]) == Success(Some(ch))
  {
  }

  /** Peers of lengths 2, 3 and 4 against a local length of 3: the valid length-4 chain is adopted. */
  lemma LongestValidWins(c: Crypto, ch2: seq<Block>, ch3: seq<Block>, ch4: seq<Block>)
    requires ch4 != [] && IsValidChain(c, ch4)
    ensures Scan(c, 3, None, [PeerResponse(StatusOk, 2, ch2), PeerResponse(StatusOk, 3, ch3), PeerResponse(StatusOk, 4, ch4)])
      == Success(Some(ch4))
  {
    var ps := [PeerResponse(StatusOk, 2, ch2), PeerResponse(StatusOk, 3, ch3), PeerResponse(StatusOk, 4, ch4)];
    assert Scan(c, 4, Some(ch4), ps[2..][1..]) == Success(Some(ch4));
    assert Scan(c, 3, None, ps[2..]) == Success(Some(ch4));
    assert Scan(c, 3, None, ps[1..]) == Scan(c, 3, None, ps[1..][1..]);
  }

  /** A length-3 chain (even an invalid or empty one) and a length-2 valid chain leave a length-3 local chain in place. */
  lemma TiesAndShorterChainsLose(c: Crypto, ch2: seq<Block>, ch3: seq<Block>)
    ensures Scan(c, 3, None, [PeerResponse(StatusOk, 3, ch3), PeerResponse(StatusOk, 2, ch2)]) == Success(None)
  {
    var ps := [PeerResponse(StatusOk, 3, ch3), PeerResponse(StatusOk, 2, ch2)];
    assert Scan(c, 3, None, ps[1..]) == Scan(c, 3, None, ps[1..][1..]) == Success(None);
  }
}
