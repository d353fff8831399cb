/** The NFT card: who is offered the STAKE and UNSTAKE buttons, the two
    click handlers that call the token and staking contracts, and the update
    they make, through the `setNfts` it is given, to its parent's list of
    NFTs once the calls have gone through. */
module Staking {
  import opened Results
  import Text

  /** One entry of the NFT list behind `setNfts`. */
  datatype Nft = Nft(imageUrl: string, tokenId: nat, owner: string, isStaked: bool)

  // ---------------------------------------------------------------------
  // The list update (the functions handed to `setNfts`).

  /** `nfts.map(nft => nft.tokenId === tokenId ? {...nft, isStaked: staked} : nft)`;
      the stake handler passes `staked = true`, the unstake handler `false`. */
  function WithStaked(nfts: seq<Nft>, tokenId: nat, staked: bool): (r: seq<Nft>)
    ensures |r| == |nfts|
  {
    if nfts == [] then []
    else
      [if nfts[0].tokenId == tokenId then nfts[0].(isStaked := staked) else nfts[0]]
      + WithStaked(nfts[1..], tokenId, staked)
  }

  /** The update keeps the list's length and order, returns every entry of
      another token as it was, and gives the acted-on token's entries the new
      flag with every other field copied. */
  lemma {:induction false} WithStakedEntries(nfts: seq<Nft>, tokenId: nat, staked: bool)
    ensures |WithStaked(nfts, tokenId, staked)| == |nfts|
    ensures forall i :: 0 <= i < |nfts| && nfts[i].tokenId != tokenId ==>
      WithStaked(nfts, tokenId, staked)[i] == nfts[i]
    ensures forall i :: 0 <= i < |nfts| && nfts[i].tokenId == tokenId ==>
      var e := WithStaked(nfts, tokenId, staked)[i];
      e.isStaked == staked && e.tokenId == nfts[i].tokenId &&
      e.imageUrl == nfts[i].imageUrl && e.owner == nfts[i].owner
  {
    if nfts != [] {
      WithStakedEntries(nfts[1..], tokenId, staked);
    }
  }

  /** Applying an update a second time changes nothing. */
  lemma {:induction false} WithStakedIdempotent(nfts: seq<Nft>, tokenId: nat, staked: bool)
    ensures WithStaked(WithStaked(nfts, tokenId, staked), tokenId, staked)
         == WithStaked(nfts, tokenId, staked)
  {
    if nfts != [] {
      WithStakedIdempotent(nfts[1..], tokenId, staked);
    }
  }

  /** Of two updates of the same token, the later one decides: unstaking
      after staking is the same as unstaking alone. */
  lemma {:induction false} WithStakedLastWins(nfts: seq<Nft>, tokenId: nat, first: bool, second: bool)
    ensures WithStaked(WithStaked(nfts, tokenId, first), tokenId, second)
         == WithStaked(nfts, tokenId, second)
  {
    if nfts != [] {
      WithStakedLastWins(nfts[1..], tokenId, first, second);
    }
  }

  /** Updates of two different tokens do not interfere. */
  lemma {:induction false} WithStakedCommutes(nfts: seq<Nft>, t1: nat, s1: bool, t2: nat, s2: bool)
    requires t1 != t2
    ensures WithStaked(WithStaked(nfts, t1, s1), t2, s2) == WithStaked(WithStaked(nfts, t2, s2), t1, s1)
  {
    if nfts != [] {
      WithStakedCommutes(nfts[1..], t1, s1, t2, s2);
    }
  }

  // ---------------------------------------------------------------------
  // Ownership and the buttons.

  /** `owner.toLowerCase() === account.toLowerCase()` for an account that is
      a string. Addresses of different lengths never match. */
  predicate IsOwner(owner: string, account: string)
    ensures IsOwner(owner, account) ==> |owner| == |account|
  {
    Text.SameIgnoringCase(owner, account)
  }

  /** Changing the case of either address never changes the answer. */
  lemma IsOwnerIgnoresCase(owner: string, account: string)
    ensures IsOwner(Text.Lower(owner), account) == IsOwner(owner, account)
    ensures IsOwner(owner, Text.Lower(account)) == IsOwner(owner, account)
    ensures IsOwner(owner, account) == IsOwner(account, owner)
  {
    Text.SameIgnoringCaseProperties(owner, account, account);
    Text.SameIgnoringCaseProperties(account, owner, owner);
    Text.SameIgnoringCaseProperties(owner, Text.Lower(account), account);
  }

  datatype Button = StakeButton | UnstakeButton

  /** The buttons the card renders: STAKE when the account owns the NFT and
      it is not staked, UNSTAKE when it owns it and it is staked. The page's
      account is `null` (None) until the wallet reports one; the card then
      throws on `account.toLowerCase()` and renders nothing (None). */
  function Buttons(owner: string, account: Option<string>, isStaked: bool): (r: Option<seq<Button>>)
    ensures r.None? <==> account.None?
    ensures r.Some? ==> |r.value| <= 1
    ensures r.Some? ==> (r.value != [] <==> IsOwner(owner, account.value))
    ensures r.Some? && StakeButton in r.value ==> !isStaked
    ensures r.Some? && UnstakeButton in r.value ==> isStaked
  {
    match account
    case None => None
    case Some(a) =>
      var isOwner := IsOwner(owner, a);
      Some((if isOwner && !isStaked then [StakeButton] else [])
           + (if isOwner && isStaked then [UnstakeButton] else []))
  }

  // ---------------------------------------------------------------------
  // The click handlers.

  /** What the card does with the contracts: the transactions it sends, and
      `Approved` once an approval has been mined (its `wait()` resolved).
      `Approve` lets the staking contract take the token. */
  datatype Call =
    | Approve(tokenId: nat)
    | Approved(tokenId: nat)
    | StakeCall(tokenId: nat)
    | UnstakeCall(tokenId: nat)

  datatype Toast = Success(message: string) | Error(message: string)

  const StakedMessage: string := "\U{1F984} NFT was successfully staked!"
  const UnstakedMessage: string := "\U{1F984} NFT was successfully unstaked!"

  /** `if (e?.reason) toastErrorMessage(e?.reason)`: an empty or missing
      reason shows nothing. */
  function FailureToasts(reason: string): (r: seq<Toast>)
    ensures |r| <= 1
    ensures r != [] <==> reason != ""
    ensures forall t :: t in r ==> t == Error(reason)
  {
    if reason != "" then [Error(reason)] else []
  }

  /** In every log, a stake of a token comes after a mined approval of the
      same token. */
  ghost predicate ApprovedBeforeStake(calls: seq<Call>) {
    forall i :: 0 <= i < |calls| && calls[i].StakeCall? ==>
      exists j :: 0 <= j < i && calls[j] == Approved(calls[i].tokenId)
  }

  /** The invariant survives any interleaving of the handlers' steps: a call
      other than a stake can be logged at any point, ... */
  lemma LogOtherCall(calls: seq<Call>, c: Call)
    requires ApprovedBeforeStake(calls) && !c.StakeCall?
    ensures ApprovedBeforeStake(calls + [c])
  {
    forall i | 0 <= i < |calls + [c]| && (calls + [c])[i].StakeCall?
      ensures exists j :: 0 <= j < i && (calls + [c])[j] == Approved((calls + [c])[i].tokenId)
    {
      assert i < |calls| && (calls + [c])[i] == calls[i];
      var j :| 0 <= j < i && calls[j] == Approved(calls[i].tokenId);
      assert (calls + [c])[j] == calls[j];
    }
  }

  /** ... and a stake once its approval has been mined, however many other
      calls came in between. */
  lemma LogStakeAfterApproval(calls: seq<Call>, tokenId: nat)
    requires ApprovedBeforeStake(calls) && Approved(tokenId) in calls
    ensures ApprovedBeforeStake(calls + [StakeCall(tokenId)])
  {
    var next := calls + [StakeCall(tokenId)];
    forall i | 0 <= i < |next| && next[i].StakeCall?
      ensures exists j :: 0 <= j < i && next[j] == Approved(next[i].tokenId)
    {
      if i < |calls| {
        assert next[i] == calls[i];
        var j :| 0 <= j < i && calls[j] == Approved(calls[i].tokenId);
        assert next[j] == calls[j];
      } else {
        var j :| 0 <= j < |calls| && calls[j] == Approved(tokenId);
        assert next[j] == calls[j];
      }
    }
  }

  /** The NFT list behind `setNfts` with the cards acting on it, and what the cards
      have sent to the contracts and shown to the user. Each awaited step
      (a call together with `wait()`) is given by how it settles. */
  class Gallery {
    var nfts: seq<Nft>
    var calls: seq<Call>
    var toasts: seq<Toast>

    ghost predicate Valid()
      reads this
    {
      ApprovedBeforeStake(calls)
    }

    constructor(initial: seq<Nft>)
      ensures Valid()
      ensures nfts == initial && calls == [] && toasts == []
    {
      nfts := initial;
      calls := [];
      toasts := [];
    }

    /** The STAKE handler: approve, then stake; the first failure shows its
        reason and ends the handler with the list untouched. */
    method Stake(tokenId: nat, approval: Reply<()>, staking: Reply<()>)
      requires Valid()
      modifies this
      ensures Valid()
      ensures calls == old(calls) + [Approve(tokenId)]
                       + (if approval.Resolved? then [Approved(tokenId), StakeCall(tokenId)] else [])
      ensures toasts == old(toasts) + (
        if approval.Rejected? then FailureToasts(approval.reason)
        else if staking.Rejected? then FailureToasts(staking.reason)
        else [Success(StakedMessage)])
      ensures nfts == if approval.Resolved? && staking.Resolved?
                      then WithStaked(old(nfts), tokenId, true) else old(nfts)
    {
      LogOtherCall(calls, Approve(tokenId));
      calls := calls + [Approve(tokenId)];
      if approval.Rejected? {
        toasts := toasts + FailureToasts(approval.reason);
        return;
      }
      LogOtherCall(calls, Approved(tokenId));
      calls := calls + [Approved(tokenId)];
      assert calls[|calls| - 1] == Approved(tokenId);
      LogStakeAfterApproval(calls, tokenId);
      calls := calls + [StakeCall(tokenId)];
      if staking.Rejected? {
        toasts := toasts + FailureToasts(staking.reason);
        return;
      }
      toasts := toasts + [Success(StakedMessage)];
      nfts := WithStaked(nfts, tokenId, true);
    }

    /** The UNSTAKE handler: one call; a failure shows its reason and ends
        the handler with the list untouched. */
    method Unstake(tokenId: nat, unstaking: Reply<()>)
      requires Valid()
      modifies this
      ensures Valid()
      ensures calls == old(calls) + [UnstakeCall(tokenId)]
      ensures toasts == old(toasts) + (
        if unstaking.Rejected? then FailureToasts(unstaking.reason)
        else [Success(UnstakedMessage)])
      ensures nfts == if unstaking.Resolved?
                      then WithStaked(old(nfts), tokenId, false) else old(nfts)
    {
      LogOtherCall(calls, UnstakeCall(tokenId));
      calls := calls + [UnstakeCall(tokenId)];
      if unstaking.Rejected? {
        toasts := toasts + FailureToasts(unstaking.reason);
        return;
      }
      toasts := toasts + [Success(UnstakedMessage)];
      nfts := WithStaked(nfts, tokenId, false);
    }
  }
}
