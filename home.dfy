/** The licensing home page: the catalogue of licences, the licences the
    account holds, the owner's form that adds a licence, and the BUY buttons.
    Contract calls are given by how they settle; the page keeps a loading
    flag up while it waits for them. */
module Home {
  import opened Results
  import Text
  import HexName

  /** A licence of the catalogue; `name` is the bytes32 hex string. */
  datatype License = License(name: string, price: nat, cycleLength: nat, maxCycles: nat)

  datatype Cycle = Cycle(startTime: int, endTime: int)

  datatype LicenseeInfo = LicenseeInfo(licenseIndex: nat, cycles: seq<Cycle>)

  /** One record of `myLicenses()`: the licence token, the holder's cycles
      and the licence itself. A record with token id 0 holds nothing. */
  datatype Licensee = Licensee(tokenId: nat, licenseeInfo: LicenseeInfo, licenseinfo: License)

  // ---------------------------------------------------------------------
  // The licensee filter.

  /** `licensees.filter(l => l.tokenId.toString() !== "0")`. */
  function Held(rs: seq<Licensee>): (r: seq<Licensee>)
    ensures |r| <= |rs|
    ensures forall i :: 0 <= i < |r| ==> r[i].tokenId != 0
  {
    if rs == [] then []
    else (if rs[0].tokenId != 0 then [rs[0]] else []) + Held(rs[1..])
  }

  /** The filter keeps exactly the records with a non-zero token id. */
  lemma {:induction false} HeldMembership(rs: seq<Licensee>, x: Licensee)
    ensures x in Held(rs) <==> x in rs && x.tokenId != 0
  {
    if rs != [] {
      HeldMembership(rs[1..], x);
      assert rs == [rs[0]] + rs[1..];
    }
  }

  /** ... each as often as it occurs in the input. */
  lemma {:induction false} HeldCounts(rs: seq<Licensee>, x: Licensee)
    requires x.tokenId != 0
    ensures multiset(Held(rs))[x] == multiset(rs)[x]
  {
    if rs != [] {
      HeldCounts(rs[1..], x);
      assert rs == [rs[0]] + rs[1..];
      var head: seq<Licensee> := if rs[0].tokenId != 0 then [rs[0]] else [];
      assert multiset(Held(rs)) == multiset(head) + multiset(Held(rs[1..]));
    }
  }

  /** ... and in their original order: filtering a concatenation filters
      each part. */
  lemma {:induction false} HeldAppend(a: seq<Licensee>, b: seq<Licensee>)
    ensures Held(a + b) == Held(a) + Held(b)
  {
    if a != [] {
      assert (a + b)[1..] == a[1..] + b;
      HeldAppend(a[1..], b);
    } else {
      assert a + b == b;
    }
  }

  /** A list without token id 0 passes unchanged; so filtering twice is
      filtering once. */
  lemma {:induction false} HeldOfHeld(rs: seq<Licensee>)
    requires forall i :: 0 <= i < |rs| ==> rs[i].tokenId != 0
    ensures Held(rs) == rs
  {
    if rs != [] {
      HeldOfHeld(rs[1..]);
    }
  }

  lemma HeldIdempotent(rs: seq<Licensee>)
    ensures Held(Held(rs)) == Held(rs)
  {
    HeldOfHeld(Held(rs));
  }

  // ---------------------------------------------------------------------
  // Expiration, ownership and what a BUY button asks for.

  /** `cycles[cycles.length - 1].endTime`; an empty list throws a TypeError
      (None). */
  function GetExpiration(cycles: seq<Cycle>): (r: Option<int>)
    ensures r.Some? <==> cycles != []
  {
    if cycles == [] then None else Some(cycles[|cycles| - 1].endTime)
  }

  /** Adding a cycle moves the expiration to that cycle's end. */
  lemma ExpirationAfterRenewal(cycles: seq<Cycle>, c: Cycle)
    ensures GetExpiration(cycles + [c]) == Some(c.endTime)
  {
  }

  /** Cycles in the order they were bought: each ends no earlier than the
      one before. */
  predicate Chronological(cycles: seq<Cycle>) {
    forall i :: 0 < i < |cycles| ==> cycles[i - 1].endTime <= cycles[i].endTime
  }

  lemma {:induction false} ChronologicalEndsBefore(cycles: seq<Cycle>, i: nat)
    requires Chronological(cycles)
    requires i < |cycles|
    ensures cycles[i].endTime <= cycles[|cycles| - 1].endTime
    decreases |cycles| - i
  {
    if i < |cycles| - 1 {
      ChronologicalEndsBefore(cycles, i + 1);
    }
  }

  /** For chronological cycles the expiration is the latest end of all. */
  lemma ExpirationIsLatest(cycles: seq<Cycle>)
    requires cycles != [] && Chronological(cycles)
    ensures forall i :: 0 <= i < |cycles| ==> cycles[i].endTime <= GetExpiration(cycles).value
  {
    forall i | 0 <= i < |cycles|
      ensures cycles[i].endTime <= GetExpiration(cycles).value
    {
      ChronologicalEndsBefore(cycles, i);
    }
  }

  /** `String(owner).toLowerCase() === String(account)`: only the owner
      side is lower-cased. */
  predicate OwnerMatches(owner: string, account: string)
    ensures OwnerMatches(owner, account) ==> |owner| == |account|
  {
    Text.Lower(owner) == account
  }

  /** An account written with an upper-case letter is never recognised as
      the owner; for a lower-case account the check ignores case. */
  lemma OwnerMatchesCases(owner: string, account: string)
    ensures OwnerMatches(owner, account) ==> Text.IsLower(account)
    ensures Text.IsLower(account) ==>
      (OwnerMatches(owner, account) <==> Text.SameIgnoringCase(owner, account))
  {
    if Text.IsLower(account) {
      Text.LowerOfLower(account);
    }
  }

  /** The arguments a BUY button passes to `buyLicense`: the token to renew
      (0 for a new licence) and the licence's position in the catalogue. */
  datatype BuyRequest = BuyRequest(tokenId: nat, licenseIndex: nat, license: License)

  /** BUY on the catalogue entry at `index`: a new licence. */
  function CatalogueBuy(licenses: seq<License>, index: nat): BuyRequest
    requires index < |licenses|
  {
    BuyRequest(0, index, licenses[index])
  }

  /** BUY on a held licence: renew it. */
  function Renewal(held: Licensee): BuyRequest {
    BuyRequest(held.tokenId, held.licenseeInfo.licenseIndex, held.licenseinfo)
  }

  /** A new purchase asks for token 0 and the entry's position; a renewal
      of a listed licence asks for that licence's own token, never 0, and its
      stored index, so the contract can tell the two apart. */
  lemma BuyRequestsDistinct(licenses: seq<License>, index: nat, licensees: seq<Licensee>, j: nat)
    requires index < |licenses| && j < |Held(licensees)|
    ensures CatalogueBuy(licenses, index).tokenId == 0
    ensures CatalogueBuy(licenses, index).licenseIndex == index
    ensures CatalogueBuy(licenses, index).license == licenses[index]
    ensures Renewal(Held(licensees)[j]).tokenId == Held(licensees)[j].tokenId != 0
    ensures Renewal(Held(licensees)[j]).licenseIndex == Held(licensees)[j].licenseeInfo.licenseIndex
    ensures Renewal(Held(licensees)[j]).license == Held(licensees)[j].licenseinfo
    ensures Held(licensees)[j] in licensees
    ensures CatalogueBuy(licenses, index) != Renewal(Held(licensees)[j])
  {
    HeldMembership(licensees, Held(licensees)[j]);
  }

  // ---------------------------------------------------------------------
  // The page state.

  /** What the page asks of the licensing contract. `BuyLicense`'s third
      argument is always 0; `value` is the wei sent with it. */
  datatype Call =
    | CurrentLicences
    | MyLicenses
    | Owner
    | AddLicense(name: string, maxCycles: nat, cycleLength: nat, priceWei: nat)
    | BuyLicense(tokenId: nat, licenseIndex: nat, third: nat, value: nat)

  class HomePage {
    var isLoading: bool
    var licenses: seq<License>
    var licensees: seq<Licensee>
    var isOwner: bool
    var calls: seq<Call>

    /** The stored licensee list never holds token id 0. */
    ghost predicate Valid()
      reads this
    {
      forall i :: 0 <= i < |licensees| ==> licensees[i].tokenId != 0
    }

    constructor()
      ensures Valid()
      ensures !isLoading && licenses == [] && licensees == [] && !isOwner && calls == []
    {
      isLoading := false;
      licenses := [];
      licensees := [];
      isOwner := false;
      calls := [];
    }

    /** `loadLicenses`: raise the flag, fetch the catalogue and the held
        licences, store both (the latter filtered) and lower the flag. There
        is no catch: a rejected call ends the function with the flag up and
        both lists as they were. */
    method LoadLicenses(current: Reply<seq<License>>, mine: Reply<seq<Licensee>>)
      requires Valid()
      modifies this
      ensures Valid()
      ensures calls == old(calls) + [CurrentLicences] + (if current.Resolved? then [MyLicenses] else [])
      ensures isLoading == !(current.Resolved? && mine.Resolved?)
      ensures licenses == if current.Resolved? && mine.Resolved? then current.value else old(licenses)
      ensures licensees == if current.Resolved? && mine.Resolved? then Held(mine.value) else old(licensees)
      ensures isOwner == old(isOwner)
    {
      isLoading := true;
      calls := calls + [CurrentLicences];
      if current.Rejected? {
        return;
      }
      calls := calls + [MyLicenses];
      if mine.Rejected? {
        return;
      }
      licenses := current.value;
      licensees := Held(mine.value);
      isLoading := false;
    }

    /** `addLicense` for a name whose UTF-8 bytes are `name` and a price
        whose conversion to wei (`parseUnits`) gives `priceWei`, None where
        it throws. Raise the flag, encode the name (more than 31 bytes
        throw), convert the price, send the licence and wait for it, then
        reload the catalogue only. A throw before the call sends nothing. */
    method AddLicense(name: seq<HexName.byte>, maxCycles: nat, cycleLength: nat, priceWei: Option<nat>,
                      sent: Reply<()>, current: Reply<seq<License>>)
      requires Valid()
      modifies this
      ensures Valid()
      ensures calls == old(calls) + (
        if HexName.FormatBytes32(name).None? || priceWei.None? then []
        else [Call.AddLicense(HexName.FormatBytes32(name).value, maxCycles, cycleLength, priceWei.value)]
             + (if sent.Resolved? then [CurrentLicences] else []))
      ensures isLoading == !(|name| <= 31 && priceWei.Some? && sent.Resolved? && current.Resolved?)
      ensures licenses == if |name| <= 31 && priceWei.Some? && sent.Resolved? && current.Resolved?
                          then current.value else old(licenses)
      ensures licensees == old(licensees) && isOwner == old(isOwner)
    {
      isLoading := true;
      var encoded := HexName.FormatBytes32(name);
      if encoded.None? || priceWei.None? {
        return;
      }
      calls := calls + [Call.AddLicense(encoded.value, maxCycles, cycleLength, priceWei.value)];
      if sent.Rejected? {
        return;
      }
      calls := calls + [CurrentLicences];
      if current.Rejected? {
        return;
      }
      licenses := current.value;
      isLoading := false;
    }

    /** `buyLicense`: raise the flag, convert the licence's price to the
        wei sent with the call (`parseEther`; `value` is its result, None
        where it throws), buy (or renew) and wait, then reload the held
        licences only, filtered. A throw in the conversion sends nothing. */
    method BuyLicense(request: BuyRequest, value: Option<nat>, sent: Reply<()>, mine: Reply<seq<Licensee>>)
      requires Valid()
      modifies this
      ensures Valid()
      ensures calls == old(calls) + (
        if value.None? then []
        else [Call.BuyLicense(request.tokenId, request.licenseIndex, 0, value.value)]
             + (if sent.Resolved? then [MyLicenses] else []))
      ensures isLoading == !(value.Some? && sent.Resolved? && mine.Resolved?)
      ensures licensees == if value.Some? && sent.Resolved? && mine.Resolved?
                           then Held(mine.value) else old(licensees)
      ensures licenses == old(licenses) && isOwner == old(isOwner)
    {
      isLoading := true;
      if value.None? {
        return;
      }
      calls := calls + [Call.BuyLicense(request.tokenId, request.licenseIndex, 0, value.value)];
      if sent.Rejected? {
        return;
      }
      calls := calls + [MyLicenses];
      if mine.Rejected? {
        return;
      }
      licensees := Held(mine.value);
      isLoading := false;
    }

    /** `checkOwner`: ask the contract for its owner and compare it with
        `String(account)`, which is "null" while there is no account. */
    method CheckOwner(account: Option<string>, owner: Reply<string>)
      requires Valid()
      modifies this
      ensures Valid()
      ensures calls == old(calls) + [Owner]
      ensures isOwner == if owner.Resolved?
                         then OwnerMatches(owner.value, if account.Some? then account.value else "null")
                         else old(isOwner)
      ensures isLoading == old(isLoading) && licenses == old(licenses) && licensees == old(licensees)
    {
      calls := calls + [Owner];
      if owner.Resolved? {
        isOwner := OwnerMatches(owner.value, if account.Some? then account.value else "null");
      }
    }
  }
}
