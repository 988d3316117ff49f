/** Two-step ownership of the solidstate diamond (`synthesizeDiamondBodySolidstate` in `src/diamond.ts`):
    the owner names a nominee, and only the nominee can then take over. */
module Ownership {
  import opened Wrappers

  type Address = nat

  const ZERO: Address := 0

  datatype State = State(owner: Address, nominee: Address, fallback: Address, frozen: bool)

  datatype Call =
    | TransferOwnership(sender: Address, account: Address)
    | AcceptOwnership(sender: Address)
    | SetFallbackAddress(sender: Address, fallback: Address)
    | FreezeDiamond(sender: Address)

  datatype Revert = NotOwner | NotNomineeOwner

  function Outcome(s: State, call: Call): Result<State, Revert> {
    match call
    case TransferOwnership(sender, account) =>
      if sender != s.owner then Failure(NotOwner) else Success(s.(nominee := account))
    case AcceptOwnership(sender) =>
      if sender != s.nominee then Failure(NotNomineeOwner) else Success(s.(owner := sender, nominee := ZERO))
    case SetFallbackAddress(sender, fallback) =>
      if sender != s.owner then Failure(NotOwner) else Success(s.(fallback := fallback))
    case FreezeDiamond(sender) => if sender != s.owner then Failure(NotOwner) else Success(s.(frozen := true))
  }

  /** A call that reverts leaves the state as it was. */
  function After(s: State, call: Call): State {
    match Outcome(s, call) case Success(s') => s' case Failure(_) => s
  }

  function Reverted(r: Result<State, Revert>): Option<Revert> {
    match r case Success(_) => None case Failure(e) => Some(e)
  }

  /** The state after the first `n` calls. */
  function At(s: State, calls: seq<Call>, n: nat): State
    requires n <= |calls|
  {
    if n == 0 then s else After(At(s, calls, n - 1), calls[n - 1])
  }

  class SafeOwnable {
    var contractOwner: Address
    var nomineeOwner: Address
    var fallbackAddress: Address
    var isFrozen: bool

    function Contents(): State
      reads this
    {
      State(contractOwner, nomineeOwner, fallbackAddress, isFrozen)
    }

    constructor (deployer: Address)
      ensures Contents() == State(deployer, ZERO, ZERO, false)
    {
      contractOwner, nomineeOwner, fallbackAddress, isFrozen := deployer, ZERO, ZERO, false;
    }

    method TransferOwnership(sender: Address, account: Address) returns (error: Option<Revert>)
      modifies this
      ensures error == if sender != old(contractOwner) then Some(NotOwner) else None
      ensures Contents() == if error.None? then old(Contents()).(nominee := account) else old(Contents())
      ensures Contents() == After(old(Contents()), Call.TransferOwnership(sender, account))
      ensures error == Reverted(Outcome(old(Contents()), Call.TransferOwnership(sender, account)))
    {
      if sender != contractOwner {
        return Some(NotOwner);
      }
      nomineeOwner := account;
      return None;
    }

    method AcceptOwnership(sender: Address) returns (error: Option<Revert>)
      modifies this
      ensures error == if sender != old(nomineeOwner) then Some(NotNomineeOwner) else None
      ensures Contents() ==
              if error.None? then old(Contents()).(owner := sender, nominee := ZERO) else old(Contents())
      ensures Contents() == After(old(Contents()), Call.AcceptOwnership(sender))
      ensures error == Reverted(Outcome(old(Contents()), Call.AcceptOwnership(sender)))
    {
      if sender != nomineeOwner {
        return Some(NotNomineeOwner);
      }
      contractOwner := sender;
      nomineeOwner := ZERO;
      return None;
    }

    method SetFallbackAddress(sender: Address, fallback: Address) returns (error: Option<Revert>)
      modifies this
      ensures error == if sender != old(contractOwner) then Some(NotOwner) else None
      ensures Contents() == if error.None? then old(Contents()).(fallback := fallback) else old(Contents())
      ensures Contents() == After(old(Contents()), Call.SetFallbackAddress(sender, fallback))
      ensures error == Reverted(Outcome(old(Contents()), Call.SetFallbackAddress(sender, fallback)))
    {
      if sender != contractOwner {
        return Some(NotOwner);
      }
      fallbackAddress := fallback;
      return None;
    }

    method FreezeDiamond(sender: Address) returns (error: Option<Revert>)
      modifies this
      ensures error == if sender != old(contractOwner) then Some(NotOwner) else None
      ensures Contents() == if error.None? then old(Contents()).(frozen := true) else old(Contents())
      ensures Contents() == After(old(Contents()), Call.FreezeDiamond(sender))
      ensures error == Reverted(Outcome(old(Contents()), Call.FreezeDiamond(sender)))
    {
      if sender != contractOwner {
        return Some(NotOwner);
      }
      isFrozen := true;
      return None;
    }
  }

  /** Call `j` is the owner's nomination that still stands after `n` calls: ownership has not changed hands
      and no other account has been nominated since. */
  ghost predicate StandsSince(s: State, calls: seq<Call>, j: nat, n: nat) {
    && j < n <= |calls|
    && calls[j] == TransferOwnership(At(s, calls, j).owner, At(s, calls, n).nominee)
    && forall k: nat :: j < k <= n ==> SameOffer(s, calls, j, k, n)
  }

  ghost predicate SameOffer(s: State, calls: seq<Call>, j: nat, k: nat, n: nat)
    requires j < n <= |calls| && k <= n
  {
    && At(s, calls, k).owner == At(s, calls, j).owner
    && At(s, calls, k).nominee == At(s, calls, n).nominee
  }

  ghost predicate RealCallers(calls: seq<Call>) {
    forall c | c in calls :: c.sender != ZERO
  }

  /** Whoever is nominated was nominated by the present owner. */
  lemma {:induction false} NomineeIsOwnersChoice(s: State, calls: seq<Call>, n: nat)
    requires s.nominee == ZERO && n <= |calls|
    ensures At(s, calls, n).nominee == ZERO || exists j: nat :: StandsSince(s, calls, j, n)
  {
    if n > 0 {
      NomineeIsOwnersChoice(s, calls, n - 1);
      var before, after := At(s, calls, n - 1), At(s, calls, n);
      if after.nominee != ZERO {
        if calls[n - 1] == TransferOwnership(before.owner, after.nominee) {
          assert StandsSince(s, calls, n - 1, n);
        } else {
          assert after.nominee == before.nominee && after.owner == before.owner;
          var j: nat :| StandsSince(s, calls, j, n - 1);
          OfferStillStands(s, calls, j, n - 1);
        }
      }
    }
  }

  lemma OfferStillStands(s: State, calls: seq<Call>, j: nat, n: nat)
    requires StandsSince(s, calls, j, n) && n < |calls|
    requires At(s, calls, n + 1).nominee == At(s, calls, n).nominee
    requires At(s, calls, n + 1).owner == At(s, calls, n).owner
    ensures StandsSince(s, calls, j, n + 1)
  {
    var later := n + 1;
    assert SameOffer(s, calls, j, n, n);
    forall k: nat | j < k <= later ensures SameOffer(s, calls, j, k, later) {
      assert k <= n ==> SameOffer(s, calls, j, k, n);
    }
  }

  /** Over every run: ownership passes only to an account that the owner at that moment had nominated and
      that accepts by calling itself; every other call, by anyone, leaves the owner in place. */
  lemma OwnershipPassesByConsent(s: State, calls: seq<Call>, n: nat)
    requires s.nominee == ZERO && n < |calls| && RealCallers(calls)
    requires At(s, calls, n + 1).owner != At(s, calls, n).owner
    ensures calls[n] == AcceptOwnership(At(s, calls, n + 1).owner)
    ensures At(s, calls, n + 1).nominee == ZERO
    ensures exists j: nat :: StandsSince(s, calls, j, n) &&
                              calls[j] == TransferOwnership(At(s, calls, n).owner, At(s, calls, n + 1).owner)
  {
    assert calls[n] in calls;
    assert At(s, calls, n).nominee == At(s, calls, n + 1).owner != ZERO;
    NomineeIsOwnersChoice(s, calls, n);
    var j: nat :| StandsSince(s, calls, j, n);
    assert SameOffer(s, calls, j, n, n);
  }

  /** At any point of any run: an account that the owner nominates can take over at once. */
  lemma OfferCanBeTaken(s: State, calls: seq<Call>, n: nat, account: Address)
    requires n + 1 < |calls|
    requires calls[n] == TransferOwnership(At(s, calls, n).owner, account) && calls[n + 1] == AcceptOwnership(account)
    ensures At(s, calls, n + 2) == At(s, calls, n).(owner := account, nominee := ZERO)
  {
    assert At(s, calls, n + 1) == At(s, calls, n).(nominee := account);
  }

  /** At any point the owner can freeze the diamond. */
  lemma OwnerFreezes(s: State, calls: seq<Call>, n: nat)
    requires n < |calls| && calls[n] == FreezeDiamond(At(s, calls, n).owner)
    ensures forall k :: n < k <= |calls| ==> At(s, calls, k).frozen
  {
    forall k | n < k <= |calls| ensures At(s, calls, k).frozen {
      FrozenForever(s, calls, n + 1, k);
    }
  }

  /** Once frozen, always frozen. */
  lemma {:induction false} FrozenForever(s: State, calls: seq<Call>, m: nat, n: nat)
    requires m <= n <= |calls| && At(s, calls, m).frozen
    ensures At(s, calls, n).frozen
  {
    if m < n {
      FrozenForever(s, calls, m, n - 1);
    }
  }
}
