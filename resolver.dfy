/** Longest-valid-chain consensus, as a value computed from the peers' replies. */
module Resolver {
  import opened Wrappers
  import opened Digest
  import opened Chain

  /** What asking one peer for its chain gives: the request raised, or a reply
      with its status code and the chain and length the peer reported. */
  datatype Response =
    | Unreachable
    | Received(status: int, chain: seq<Block>, length: int)

  /** The replies of the peers in the order they are asked. */
  function Fetched(order: seq<string>, fetch: string -> Response): seq<Response> {
    seq(|order|, k requires 0 <= k < |order| => fetch(order[k]))
  }

  /** `order` lists every element of `nodes` once: one iteration order of the set. */
  ghost predicate IsEnumeration(order: seq<string>, nodes: set<string>) {
    (forall i, j :: 0 <= i < j < |order| ==> order[i] != order[j]) &&
    (forall n :: n in nodes <==> n in order)
  }

  /** The running scan over the replies: `maxLength` is the longest length seen so far,
      `longest` the chain that reported it. A successful reply replaces them when its reported
      length is strictly greater and its chain validates. Validating an empty chain and a
      raising request abort the scan. The result is the winning chain, if any. */
  function Resolve(hash: BlockHash, sha256: Sha256, maxLength: int, longest: Option<seq<Block>>,
                   responses: seq<Response>): (result: Result<Option<seq<Block>>, Error>)
    ensures result.Success? && result.value.Some? && result.value != longest ==>
              ValidChain(hash, sha256, result.value.value)
    decreases |responses|
  {
    if responses == [] then Success(longest)
    else
      var response := responses[0];
      if response.Unreachable? then Failure(PeerUnreachable)
      else if response.status == 200 && response.length > maxLength then
        if response.chain == [] then Failure(EmptyChain)
        else if ValidChain(hash, sha256, response.chain) then
          Resolve(hash, sha256, response.length, Some(response.chain), responses[1..])
        else Resolve(hash, sha256, maxLength, longest, responses[1..])
      else Resolve(hash, sha256, maxLength, longest, responses[1..])
  }

  /** A reply that beats a chain of length `maxLength`: successful, strictly longer, valid. */
  predicate Qualifies(hash: BlockHash, sha256: Sha256, maxLength: int, response: Response) {
    response.Received? && response.status == 200 && response.length > maxLength &&
    ValidChain(hash, sha256, response.chain)
  }

  /** A reply that may abort the scan. */
  predicate Fatal(maxLength: int, response: Response) {
    response.Unreachable? ||
    (response.Received? && response.status == 200 && response.length > maxLength && response.chain == [])
  }

  /** Reply `i` qualifies, reports the greatest length of all qualifying replies,
      and every qualifying reply before it reports a strictly smaller length. */
  predicate FirstLongest(hash: BlockHash, sha256: Sha256, maxLength: int, responses: seq<Response>, i: int) {
    0 <= i < |responses| && Qualifies(hash, sha256, maxLength, responses[i]) &&
    (forall j :: 0 <= j < |responses| && Qualifies(hash, sha256, maxLength, responses[j]) ==>
       responses[j].length <= responses[i].length) &&
    (forall j :: 0 <= j < i && Qualifies(hash, sha256, maxLength, responses[j]) ==>
       responses[j].length < responses[i].length)
  }

  /** A chain is chosen exactly when one was already held or some reply qualifies. */
  lemma {:induction false} ResolveChoosesIff(hash: BlockHash, sha256: Sha256, maxLength: int,
                                             longest: Option<seq<Block>>, responses: seq<Response>)
    requires Resolve(hash, sha256, maxLength, longest, responses).Success?
    ensures Resolve(hash, sha256, maxLength, longest, responses).value.Some? <==>
            longest.Some? ||
            exists i :: 0 <= i < |responses| && Qualifies(hash, sha256, maxLength, responses[i])
    decreases |responses|
  {
    if responses != [] {
      var response, rest := responses[0], responses[1..];
      if Qualifies(hash, sha256, maxLength, response) {
        ResolveChoosesIff(hash, sha256, response.length, Some(response.chain), rest);
      } else {
        ResolveChoosesIff(hash, sha256, maxLength, longest, rest);
        if exists i :: 0 <= i < |responses| && Qualifies(hash, sha256, maxLength, responses[i]) {
          var i :| 0 <= i < |responses| && Qualifies(hash, sha256, maxLength, responses[i]);
          assert rest[i - 1] == responses[i];
        }
        if exists i :: 0 <= i < |rest| && Qualifies(hash, sha256, maxLength, rest[i]) {
          var i :| 0 <= i < |rest| && Qualifies(hash, sha256, maxLength, rest[i]);
          assert responses[i + 1] == rest[i];
        }
      }
    }
  }

  /** The chosen chain is the one already held when nothing qualifies, and otherwise the chain
      of the first reply with the greatest qualifying length. */
  lemma {:induction false} ResolveWinner(hash: BlockHash, sha256: Sha256, maxLength: int,
                                         longest: Option<seq<Block>>, responses: seq<Response>, winner: seq<Block>)
    requires Resolve(hash, sha256, maxLength, longest, responses) == Success(Some(winner))
    ensures (longest == Some(winner) &&
             forall j :: 0 <= j < |responses| ==> !Qualifies(hash, sha256, maxLength, responses[j])) ||
            exists i :: FirstLongest(hash, sha256, maxLength, responses, i) && responses[i].chain == winner
    decreases |responses|
  {
    if responses != [] {
      var response, rest := responses[0], responses[1..];
      assert forall j :: 0 <= j < |rest| ==> rest[j] == responses[j + 1];
      if Qualifies(hash, sha256, maxLength, response) {
        var length := response.length;
        ResolveWinner(hash, sha256, length, Some(response.chain), rest, winner);
        if Some(response.chain) == Some(winner) &&
           forall j :: 0 <= j < |rest| ==> !Qualifies(hash, sha256, length, rest[j]) {
          forall j | 0 <= j < |responses| && Qualifies(hash, sha256, maxLength, responses[j])
            ensures responses[j].length <= length
          {
            if j > 0 { assert !Qualifies(hash, sha256, length, rest[j - 1]); }
          }
          assert FirstLongest(hash, sha256, maxLength, responses, 0);
        } else {
          var i :| FirstLongest(hash, sha256, length, rest, i) && rest[i].chain == winner;
          var best := rest[i].length;
          forall j | 0 <= j < |responses| && Qualifies(hash, sha256, maxLength, responses[j])
            ensures responses[j].length <= best
            ensures j < i + 1 ==> responses[j].length < best
          {
            if j > 0 && responses[j].length > length {
              assert Qualifies(hash, sha256, length, rest[j - 1]);
            }
          }
          assert FirstLongest(hash, sha256, maxLength, responses, i + 1);
        }
      } else {
        ResolveWinner(hash, sha256, maxLength, longest, rest, winner);
        if !(longest == Some(winner) &&
             forall j :: 0 <= j < |rest| ==> !Qualifies(hash, sha256, maxLength, rest[j])) {
          var i :| FirstLongest(hash, sha256, maxLength, rest, i) && rest[i].chain == winner;
          assert FirstLongest(hash, sha256, maxLength, responses, i + 1);
        }
      }
    }
  }

  /** The scan aborts only because of a reply that can abort it. */
  lemma {:induction false} ResolveFailsOnFatal(hash: BlockHash, sha256: Sha256, maxLength: int,
                                               longest: Option<seq<Block>>, responses: seq<Response>)
    requires Resolve(hash, sha256, maxLength, longest, responses).Failure?
    ensures exists i :: 0 <= i < |responses| && Fatal(maxLength, responses[i])
    decreases |responses|
  {
    var response, rest := responses[0], responses[1..];
    if !Fatal(maxLength, response) {
      var next := if Qualifies(hash, sha256, maxLength, response) then response.length else maxLength;
      var held := if Qualifies(hash, sha256, maxLength, response) then Some(response.chain) else longest;
      ResolveFailsOnFatal(hash, sha256, next, held, rest);
      var i :| 0 <= i < |rest| && Fatal(next, rest[i]);
      assert Fatal(maxLength, responses[i + 1]);
    } else {
      assert Fatal(maxLength, responses[0]);
    }
  }

  /** A peer whose request raises always aborts the scan. */
  lemma {:induction false} UnreachableFails(hash: BlockHash, sha256: Sha256, maxLength: int,
                                            longest: Option<seq<Block>>, responses: seq<Response>, i: nat)
    requires i < |responses| && responses[i].Unreachable?
    ensures Resolve(hash, sha256, maxLength, longest, responses).Failure?
    decreases i
  {
    var response := responses[0];
    if i > 0 && !response.Unreachable? {
      var next := if Qualifies(hash, sha256, maxLength, response) then response.length else maxLength;
      var held := if Qualifies(hash, sha256, maxLength, response) then Some(response.chain) else longest;
      UnreachableFails(hash, sha256, next, held, responses[1..], i - 1);
    }
  }

  /** Peers that are reachable and at most as long as the local chain never replace it, even
      when tied in length. */
  lemma {:induction false} NoLongerPeerKeeps(hash: BlockHash, sha256: Sha256, maxLength: int, responses: seq<Response>)
    requires forall j :: 0 <= j < |responses| ==>
               responses[j].Received? && (responses[j].status == 200 ==> responses[j].length <= maxLength)
    ensures Resolve(hash, sha256, maxLength, None, responses) == Success(None)
  {
    if Resolve(hash, sha256, maxLength, None, responses).Failure? {
      ResolveFailsOnFatal(hash, sha256, maxLength, None, responses);
    } else {
      ResolveChoosesIff(hash, sha256, maxLength, None, responses);
    }
  }
}
