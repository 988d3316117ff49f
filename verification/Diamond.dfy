/** The `@diamond('array')` contract that `synthesizeDiamondBody` writes: an EIP-2535 selector
    table kept as four mutually dependent structures, updated in place by swap-and-pop.

    The module has three layers:
    - the abstract table, a partial map selector -> facet, and the meaning of a cut on it;
    - the invariant that ties the four concrete structures together, with one lemma per
      primitive update;
    - the contract itself, a class whose methods are proved against both.
  */
module Diamond {
  import opened Sequences
  import opened Wrappers

  const TWO_32: int := 0x1_0000_0000
  const TWO_96: int := 0x1_0000_0000_0000_0000_0000_0000
  const TWO_160: int := 0x1_0000_0000_0000_0000_0000_0000_0000_0000_0000_0000
  const TWO_256: int := TWO_96 * TWO_160

  type Bytes4 = x: int | 0 <= x < TWO_32
  type U8 = x: int | 0 <= x < 256
  type U96 = x: int | 0 <= x < TWO_96
  type Address = x: int | 0 <= x < TWO_160
  type U256 = x: int | 0 <= x < TWO_256

  const ZERO: Address := 0

  // ---------------------------------------------------------------- the abstract table

  /** One entry of the calldata array; `action` is the raw byte, so 3..255 are representable. */
  datatype FacetCut = FacetCut(facetAddress: Address, action: U8, functionSelectors: seq<Bytes4>)

  datatype CutError =
    | NotOwner | IsFrozen | NoSelectors | AddFacetIsZero | FacetHasNoCode
    | AlreadyExists | SameFunction | ReplaceMissing | ReplaceImmutable
    | RemoveFacetNotZero | RemoveMissing | RemoveImmutable | IncorrectAction | InitReverted

  type Routes = map<Bytes4, Address>

  function AddAll(m: Routes, sels: seq<Bytes4>, facet: Address): Result<Routes, CutError>
    decreases |sels|
  {
    if sels == [] then Success(m)
    else if sels[0] in m then Failure(AlreadyExists)
    else AddAll(m[sels[0] := facet], sels[1..], facet)
  }

  function ReplaceAll(m: Routes, sels: seq<Bytes4>, facet: Address, self: Address): Result<Routes, CutError>
    decreases |sels|
  {
    if sels == [] then Success(m)
    else if sels[0] !in m then Failure(ReplaceMissing)
    else if m[sels[0]] == facet then Failure(SameFunction)
    else if m[sels[0]] == self then Failure(ReplaceImmutable)
    else ReplaceAll(m[sels[0] := facet], sels[1..], facet, self)
  }

  function RemoveAll(m: Routes, sels: seq<Bytes4>, self: Address): Result<Routes, CutError>
    decreases |sels|
  {
    if sels == [] then Success(m)
    else if sels[0] !in m then Failure(RemoveMissing)
    else if m[sels[0]] == self then Failure(RemoveImmutable)
    else RemoveAll(m - {sels[0]}, sels[1..], self)
  }

  /** The meaning of one cut entry. A facet is (re-)registered exactly when no selector routes to
      it, and only then is it required to hold code. */
  function ApplyCut(m: Routes, cut: FacetCut, self: Address, hasCode: Address -> bool): Result<Routes, CutError> {
    var FacetCut(facet, action, sels) := cut;
    if action > 2 then Failure(IncorrectAction)
    else if sels == [] then Failure(NoSelectors)
    else if action == 2 then
      if facet != ZERO then Failure(RemoveFacetNotZero) else RemoveAll(m, sels, self)
    else if facet == ZERO then Failure(AddFacetIsZero)
    else if facet !in m.Values && !hasCode(facet) then Failure(FacetHasNoCode)
    else if action == 0 then AddAll(m, sels, facet)
    else ReplaceAll(m, sels, facet, self)
  }

  /** The meaning of a whole cut: each entry acts on the table its predecessors left. */
  function ApplyCuts(m: Routes, cuts: seq<FacetCut>, self: Address, hasCode: Address -> bool): Result<Routes, CutError>
    decreases |cuts|
  {
    if cuts == [] then Success(m)
    else
      var m' :- ApplyCut(m, cuts[0], self, hasCode);
      ApplyCuts(m', cuts[1..], self, hasCode)
  }

  /** An add succeeds exactly when its selectors are distinct and none is routed; it then routes all
      of them to the facet and changes nothing else. */
  lemma AddMeaning(m: Routes, sels: seq<Bytes4>, facet: Address)
    ensures AddAll(m, sels, facet).Success? <==> Distinct(sels) && forall s :: s in sels ==> s !in m
    ensures AddAll(m, sels, facet).Success? ==> AddAll(m, sels, facet).value == m + map s | s in sels :: facet
  {
    AddSucceeds(m, sels, facet);
    if AddAll(m, sels, facet).Success? {
      AddResult(m, sels, facet);
    }
  }

  lemma {:induction false} AddSucceeds(m: Routes, sels: seq<Bytes4>, facet: Address)
    ensures AddAll(m, sels, facet).Success? <==> Distinct(sels) && forall s :: s in sels ==> s !in m
    decreases |sels|
  {
    if sels != [] {
      hide Distinct;
      DistinctTail(sels);
      assert forall s :: s in sels <==> s == sels[0] || s in sels[1..];
      if sels[0] !in m {
        AddSucceeds(m[sels[0] := facet], sels[1..], facet);
      }
    } else {
      assert Distinct(sels);
    }
  }

  lemma {:induction false} AddResult(m: Routes, sels: seq<Bytes4>, facet: Address)
    requires AddAll(m, sels, facet).Success?
    ensures AddAll(m, sels, facet).value == m + map s | s in sels :: facet
    decreases |sels|
  {
    if sels != [] {
      AddResult(m[sels[0] := facet], sels[1..], facet);
      assert forall s :: s in sels <==> s == sels[0] || s in sels[1..];
    }
  }

  /** A replace succeeds exactly when its selectors are distinct, routed, and routed neither to the
      new facet nor to the diamond itself; the keys of the table stay the same. */
  lemma {:induction false} ReplaceMeaning(m: Routes, sels: seq<Bytes4>, facet: Address, self: Address)
    ensures ReplaceAll(m, sels, facet, self).Success? <==>
            Distinct(sels) && forall s :: s in sels ==> s in m && m[s] != facet && m[s] != self
    ensures ReplaceAll(m, sels, facet, self).Success? ==>
              ReplaceAll(m, sels, facet, self).value == m + map s | s in sels :: facet
    decreases |sels|
  {
    if sels != [] {
      DistinctTail(sels);
      assert forall s :: s in sels <==> s == sels[0] || s in sels[1..];
      ReplaceMeaning(m[sels[0] := facet], sels[1..], facet, self);
    }
  }

  /** A remove succeeds exactly when its selectors are distinct, routed, and not the diamond's own;
      it unroutes exactly those. */
  lemma {:induction false} RemoveMeaning(m: Routes, sels: seq<Bytes4>, self: Address)
    ensures RemoveAll(m, sels, self).Success? <==>
            Distinct(sels) && forall s :: s in sels ==> s in m && m[s] != self
    ensures RemoveAll(m, sels, self).Success? ==> RemoveAll(m, sels, self).value == m - set s | s in sels
    decreases |sels|
  {
    if sels != [] {
      DistinctTail(sels);
      assert forall s :: s in sels <==> s == sels[0] || s in sels[1..];
      RemoveMeaning(m - {sels[0]}, sels[1..], self);
    }
  }

  /** One cut of `a ++ b` is the cut `a` followed by the cut `b`: later entries see the effect of
      earlier ones, and nothing else. */
  lemma {:induction false} CutsCompose(m: Routes, a: seq<FacetCut>, b: seq<FacetCut>, self: Address,
                                       hasCode: Address -> bool)
    ensures ApplyCuts(m, a + b, self, hasCode) ==
            match ApplyCuts(m, a, self, hasCode)
            case Failure(e) => Failure(e)
            case Success(m') => ApplyCuts(m', b, self, hasCode)
    decreases |a|
  {
    if a == [] {
      assert a + b == b;
    } else {
      assert (a + b)[0] == a[0] && (a + b)[1..] == a[1..] + b;
      var r := ApplyCut(m, a[0], self, hasCode);
      if r.Success? {
        CutsCompose(r.value, a[1..], b, self, hasCode);
      }
    }
  }

  // ---------------------------------------------------------------- what a cut promises

  /** The conditions under which an entry succeeds: its facet is known or holds code, and its selectors are
      distinct and stand as the action needs them. */
  ghost predicate EntryAllowed(m: Routes, cut: FacetCut, self: Address, hasCode: Address -> bool) {
    var FacetCut(facet, action, sels) := cut;
    && sels != [] && Distinct(sels)
    && match action
       case 0 => FacetAllowed(m, facet, hasCode) && forall s :: s in sels ==> s !in m
       case 1 => FacetAllowed(m, facet, hasCode) && forall s :: s in sels ==> s in m && m[s] != facet && m[s] != self
       case 2 => facet == ZERO && forall s :: s in sels ==> s in m && m[s] != self
       case _ => false
  }

  ghost predicate FacetAllowed(m: Routes, facet: Address, hasCode: Address -> bool) {
    facet != ZERO && (hasCode(facet) || exists s :: s in m && m[s] == facet)
  }

  /** What an entry leaves: adding and replacing route its selectors to its facet, removing unroutes them, and
      all others stay. */
  ghost predicate EntryRoutes(m: Routes, cut: FacetCut, m': Routes) {
    forall s: Bytes4 ::
      if s in cut.functionSelectors then
        if cut.action == 2 then s !in m' else s in m' && m'[s] == cut.facetAddress
      else if s in m then s in m' && m'[s] == m[s]
      else s !in m'
  }

  /** The guards in front of an entry's selectors, in their order. */
  ghost predicate HeadFails(m: Routes, cut: FacetCut, hasCode: Address -> bool, e: CutError) {
    var FacetCut(facet, action, sels) := cut;
    match e
    case IncorrectAction => action > 2
    case NoSelectors => action <= 2 && sels == []
    case AddFacetIsZero => action < 2 && sels != [] && facet == ZERO
    case FacetHasNoCode =>
      action < 2 && sels != [] && facet != ZERO && !hasCode(facet) && forall s :: s in m ==> m[s] != facet
    case RemoveFacetNotZero => action == 2 && sels != [] && facet != ZERO
    case _ => false
  }

  /** Where the `k`-th selector is routed when its turn comes. */
  ghost function RoutedAt(m: Routes, cut: FacetCut, k: nat): Option<Address>
    requires k < |cut.functionSelectors|
  {
    var s := cut.functionSelectors[k];
    if s in cut.functionSelectors[..k] then if cut.action == 2 then None else Some(cut.facetAddress)
    else if s in m then Some(m[s])
    else None
  }

  /** The guards on the `k`-th selector. */
  ghost predicate SelectorFails(m: Routes, cut: FacetCut, self: Address, k: nat, e: CutError) {
    k < |cut.functionSelectors| &&
    var there := RoutedAt(m, cut, k);
    match e
    case AlreadyExists => cut.action == 0 && there.Some?
    case SameFunction => cut.action == 1 && there == Some(cut.facetAddress)
    case ReplaceMissing => cut.action == 1 && there.None?
    case ReplaceImmutable => cut.action == 1 && there == Some(self) && self != cut.facetAddress
    case RemoveMissing => cut.action == 2 && there.None?
    case RemoveImmutable => cut.action == 2 && there == Some(self)
    case _ => false
  }

  ghost predicate SelectorPasses(m: Routes, cut: FacetCut, self: Address, k: nat) {
    forall e :: !SelectorFails(m, cut, self, k, e)
  }

  ghost predicate FailsFirst(m: Routes, cut: FacetCut, self: Address, k: nat, e: CutError) {
    SelectorFails(m, cut, self, k, e) && forall j :: 0 <= j < k ==> SelectorPasses(m, cut, self, j)
  }

  /** The entry's first failing guard raises `e`. */
  ghost predicate EntryFails(m: Routes, cut: FacetCut, self: Address, hasCode: Address -> bool, e: CutError) {
    || HeadFails(m, cut, hasCode, e)
    || ((forall e' :: !HeadFails(m, cut, hasCode, e')) && exists k: nat :: FailsFirst(m, cut, self, k, e))
  }

  /** The first `n` entries were performed one after the other; `ms` holds the table before, between and behind. */
  ghost predicate Performed(ms: seq<Routes>, m: Routes, cuts: seq<FacetCut>, n: nat, self: Address,
                            hasCode: Address -> bool)
  {
    n <= |cuts| && |ms| == n + 1 && ms[0] == m && forall k :: 0 <= k < n ==> Stage(ms, cuts, k, self, hasCode)
  }

  ghost predicate Stage(ms: seq<Routes>, cuts: seq<FacetCut>, k: nat, self: Address, hasCode: Address -> bool) {
    && k + 1 < |ms| && k < |cuts|
    && EntryAllowed(ms[k], cuts[k], self, hasCode) && EntryRoutes(ms[k], cuts[k], ms[k + 1])
  }

  /** The selectors of an entry whose head passes. */
  function ApplySelectors(m: Routes, cut: FacetCut, self: Address): Result<Routes, CutError> {
    match cut.action
    case 0 => AddAll(m, cut.functionSelectors, cut.facetAddress)
    case 1 => ReplaceAll(m, cut.functionSelectors, cut.facetAddress, self)
    case _ => RemoveAll(m, cut.functionSelectors, self)
  }

  /** Behind its first selector, an entry is one with the others on the table that the first leaves. */
  lemma SelectorsBehind(m: Routes, m': Routes, cut: FacetCut, cut': FacetCut, self: Address, k: nat)
    requires cut.functionSelectors != [] && cut' == cut.(functionSelectors := cut.functionSelectors[1..])
    requires var s := cut.functionSelectors[0];
             m' == if cut.action == 2 then m - {s} else m[s := cut.facetAddress]
    ensures forall e :: SelectorFails(m, cut, self, k + 1, e) <==> SelectorFails(m', cut', self, k, e)
  {
    var sels := cut.functionSelectors;
    if k + 1 < |sels| {
      assert sels[..k + 1] == [sels[0]] + sels[1..][..k];
      assert RoutedAt(m, cut, k + 1) == RoutedAt(m', cut', k);
    }
  }

  lemma PassesBehind(m: Routes, m': Routes, cut: FacetCut, cut': FacetCut, self: Address, k: nat)
    requires cut.functionSelectors != [] && cut' == cut.(functionSelectors := cut.functionSelectors[1..])
    requires var s := cut.functionSelectors[0];
             m' == if cut.action == 2 then m - {s} else m[s := cut.facetAddress]
    ensures SelectorPasses(m, cut, self, k + 1) <==> SelectorPasses(m', cut', self, k)
  {
    SelectorsBehind(m, m', cut, cut', self, k);
    hide SelectorFails;
    if !SelectorPasses(m', cut', self, k) {
      var e :| SelectorFails(m', cut', self, k, e);
      assert SelectorFails(m, cut, self, k + 1, e);
    }
    if !SelectorPasses(m, cut, self, k + 1) {
      var e :| SelectorFails(m, cut, self, k + 1, e);
      assert SelectorFails(m', cut', self, k, e);
    }
  }

  lemma {:induction false} SelectorsFailIff(m: Routes, cut: FacetCut, self: Address, e: CutError)
    requires cut.action <= 2
    ensures ApplySelectors(m, cut, self) == Failure(e) <==> exists k: nat :: FailsFirst(m, cut, self, k, e)
    decreases |cut.functionSelectors|
  {
    var sels := cut.functionSelectors;
    if sels != [] {
      FirstFailsIff(m, cut, self, e);
      if SelectorPasses(m, cut, self, 0) {
        var m' := if cut.action == 2 then m - {sels[0]} else m[sels[0] := cut.facetAddress];
        var cut' := cut.(functionSelectors := sels[1..]);
        SelectorsFailIff(m', cut', self, e);
        hide SelectorFails, ApplySelectors;
        forall k: nat ensures FailsFirst(m, cut, self, k + 1, e) <==> FailsFirst(m', cut', self, k, e) {
          LaterFailsFirst(m, m', cut, cut', self, k, e);
        }
        if k: nat :| FailsFirst(m, cut, self, k, e) {
          assert FailsFirst(m, cut, self, k, e) && k > 0;
          assert FailsFirst(m', cut', self, k - 1, e);
        }
      } else {
        assert forall k: nat :: FailsFirst(m, cut, self, k, e) ==> k == 0;
      }
    }
  }

  /** What the first selector does. */
  lemma FirstFailsIff(m: Routes, cut: FacetCut, self: Address, e: CutError)
    requires cut.action <= 2 && cut.functionSelectors != []
    ensures FailsFirst(m, cut, self, 0, e) <==> SelectorFails(m, cut, self, 0, e)
    ensures SelectorFails(m, cut, self, 0, e) ==> ApplySelectors(m, cut, self) == Failure(e)
    ensures if SelectorPasses(m, cut, self, 0) then
              var s := cut.functionSelectors[0];
              ApplySelectors(m, cut, self) ==
              ApplySelectors(if cut.action == 2 then m - {s} else m[s := cut.facetAddress],
                             cut.(functionSelectors := cut.functionSelectors[1..]), self)
            else
              var r := ApplySelectors(m, cut, self);
              r.Failure? && SelectorFails(m, cut, self, 0, r.error)
  {
    var there := RoutedAt(m, cut, 0);
    var s := cut.functionSelectors[0];
    assert s !in cut.functionSelectors[..0];
    if SelectorPasses(m, cut, self, 0) {
      assert !SelectorFails(m, cut, self, 0, AlreadyExists) && !SelectorFails(m, cut, self, 0, SameFunction);
      assert !SelectorFails(m, cut, self, 0, ReplaceMissing) && !SelectorFails(m, cut, self, 0, ReplaceImmutable);
      assert !SelectorFails(m, cut, self, 0, RemoveMissing) && !SelectorFails(m, cut, self, 0, RemoveImmutable);
    }
  }

  lemma LaterFailsFirst(m: Routes, m': Routes, cut: FacetCut, cut': FacetCut, self: Address, k: nat, e: CutError)
    requires cut.functionSelectors != [] && cut' == cut.(functionSelectors := cut.functionSelectors[1..])
    requires var s := cut.functionSelectors[0];
             m' == if cut.action == 2 then m - {s} else m[s := cut.facetAddress]
    requires SelectorPasses(m, cut, self, 0)
    ensures FailsFirst(m, cut, self, k + 1, e) <==> FailsFirst(m', cut', self, k, e)
  {
    hide SelectorFails;
    SelectorsBehind(m, m', cut, cut', self, k);
    forall j: nat ensures SelectorPasses(m, cut, self, j + 1) <==> SelectorPasses(m', cut', self, j) {
      PassesBehind(m, m', cut, cut', self, j);
    }
    if FailsFirst(m, cut, self, k + 1, e) {
      forall j | 0 <= j < k ensures SelectorPasses(m', cut', self, j) {
        assert SelectorPasses(m, cut, self, j + 1);
      }
    }
    if FailsFirst(m', cut', self, k, e) {
      forall j | 0 <= j < k + 1 ensures SelectorPasses(m, cut, self, j) {
        assert j > 0 ==> SelectorPasses(m', cut', self, j - 1);
      }
    }
  }

  /** One entry, on every table: when it succeeds, what it then leaves, and which guard's error it raises
      otherwise. */
  lemma EntryMeaning(m: Routes, cut: FacetCut, self: Address, hasCode: Address -> bool)
    ensures var r := ApplyCuts(m, [cut], self, hasCode);
            && (r.Success? <==> EntryAllowed(m, cut, self, hasCode))
            && (r.Success? ==> EntryRoutes(m, cut, r.value))
            && forall e :: r == Failure(e) <==> EntryFails(m, cut, self, hasCode, e)
  {
    OneCut(m, cut, self, hasCode);
    var FacetCut(facet, action, sels) := cut;
    AddMeaning(m, sels, facet);
    ReplaceMeaning(m, sels, facet, self);
    RemoveMeaning(m, sels, self);
    forall e ensures ApplyCut(m, cut, self, hasCode) == Failure(e) <==> EntryFails(m, cut, self, hasCode, e) {
      EntryFailsIff(m, cut, self, hasCode, e);
    }
  }

  lemma OneCut(m: Routes, cut: FacetCut, self: Address, hasCode: Address -> bool)
    ensures ApplyCuts(m, [cut], self, hasCode) == ApplyCut(m, cut, self, hasCode)
  {
    assert [cut][1..] == [];
  }

  lemma EntryFailsIff(m: Routes, cut: FacetCut, self: Address, hasCode: Address -> bool, e: CutError)
    ensures ApplyCut(m, cut, self, hasCode) == Failure(e) <==> EntryFails(m, cut, self, hasCode, e)
  {
    HeadFailsIff(m, cut, self, hasCode);
    if cut.action <= 2 {
      SelectorsFailIff(m, cut, self, e);
    }
    hide FailsFirst, ApplySelectors, ApplyCut;
  }

  lemma HeadFailsIff(m: Routes, cut: FacetCut, self: Address, hasCode: Address -> bool)
    ensures var r := ApplyCut(m, cut, self, hasCode);
            if forall e :: !HeadFails(m, cut, hasCode, e) then cut.action <= 2 && r == ApplySelectors(m, cut, self)
            else r.Failure? && forall e :: HeadFails(m, cut, hasCode, e) <==> r == Failure(e)
  {
    var none := forall e :: !HeadFails(m, cut, hasCode, e);
    if none {
      assert !HeadFails(m, cut, hasCode, IncorrectAction) && !HeadFails(m, cut, hasCode, NoSelectors);
      assert !HeadFails(m, cut, hasCode, AddFacetIsZero) && !HeadFails(m, cut, hasCode, FacetHasNoCode);
      assert !HeadFails(m, cut, hasCode, RemoveFacetNotZero);
    }
  }

  /** A whole cut, read as stages: it succeeds, with the last table, exactly if all entries can be performed in
      order, and otherwise raises the error of the first that cannot. */
  lemma {:induction false} CutsMeaning(m: Routes, cuts: seq<FacetCut>, self: Address, hasCode: Address -> bool)
    returns (ms: seq<Routes>)
    ensures match ApplyCuts(m, cuts, self, hasCode)
            case Success(m') => Performed(ms, m, cuts, |cuts|, self, hasCode) && ms[|cuts|] == m'
            case Failure(e) =>
              var k := |ms| - 1;
              && 0 <= k < |cuts| && Performed(ms, m, cuts, k, self, hasCode)
              && EntryFails(ms[k], cuts[k], self, hasCode, e)
    decreases |cuts|
  {
    hide EntryAllowed, EntryRoutes, EntryFails, ApplyCut;
    ms := [m];
    if cuts != [] {
      EntryMeaning(m, cuts[0], self, hasCode);
      OneCut(m, cuts[0], self, hasCode);
      var r := ApplyCut(m, cuts[0], self, hasCode);
      if r.Success? {
        var rest := CutsMeaning(r.value, cuts[1..], self, hasCode);
        ms := [m] + rest;
        forall k: nat | k + 1 < |ms| ensures Stage(ms, cuts, k, self, hasCode) {
          assert k > 0 ==> Stage(rest, cuts[1..], k - 1, self, hasCode);
        }
      }
    }
  }

  /** The stages are the only ones there are. */
  lemma {:induction false} StagesUnique(m: Routes, cuts: seq<FacetCut>, n: nat, self: Address,
                                        hasCode: Address -> bool, ms: seq<Routes>)
    requires Performed(ms, m, cuts, n, self, hasCode)
    ensures ApplyCuts(m, cuts[..n], self, hasCode) == Success(ms[n])
    decreases n
  {
    if n > 0 {
      hide EntryAllowed, EntryRoutes, ApplyCut;
      assert Stage(ms, cuts, n - 1, self, hasCode);
      var earlier := ms[..n];
      forall k | 0 <= k < n - 1 ensures Stage(earlier, cuts, k, self, hasCode) {
        assert Stage(ms, cuts, k, self, hasCode);
      }
      StagesUnique(m, cuts, n - 1, self, hasCode, earlier);
      EntryMeaning(ms[n - 1], cuts[n - 1], self, hasCode);
      var r := ApplyCuts(ms[n - 1], [cuts[n - 1]], self, hasCode).value;
      SameRoutes(ms[n - 1], cuts[n - 1], r, ms[n]);
      CutsCompose(m, cuts[..n - 1], [cuts[n - 1]], self, hasCode);
      assert cuts[..n] == cuts[..n - 1] + [cuts[n - 1]];
    }
  }

  lemma SameRoutes(m: Routes, cut: FacetCut, a: Routes, b: Routes)
    requires EntryRoutes(m, cut, a) && EntryRoutes(m, cut, b)
    ensures a == b
  {
    assert forall s: Bytes4 :: s in a <==> s in b;
    assert forall s: Bytes4 :: s in a ==> a[s] == b[s];
  }

  /** The outcome of a cut by the owner of an unfrozen diamond, without reference to how it is computed. */
  ghost predicate CutOutcome(m: Routes, cuts: seq<FacetCut>, self: Address, hasCode: Address -> bool,
                             initSucceeds: bool, r: Result<(), CutError>, m': Routes)
  {
    || (exists ms ::
          && Performed(ms, m, cuts, |cuts|, self, hasCode)
          && if initSucceeds then r == Success(()) && m' == ms[|cuts|] else r == Failure(InitReverted) && m' == m)
    || (exists ms, k: nat ::
          && k < |cuts| && Performed(ms, m, cuts, k, self, hasCode)
          && r.Failure? && EntryFails(ms[k], cuts[k], self, hasCode, r.error) && m' == m)
  }

  ghost predicate KeepsOwn(m: Routes, m': Routes, self: Address) {
    forall s: Bytes4 :: s in m && m[s] == self ==> s in m' && m'[s] == self
  }

  /** Selectors routed to the diamond's own address survive every cut entry that succeeds. */
  lemma OwnFunctionsSurviveOne(m: Routes, cut: FacetCut, self: Address, hasCode: Address -> bool)
    requires ApplyCut(m, cut, self, hasCode).Success?
    ensures KeepsOwn(m, ApplyCut(m, cut, self, hasCode).value, self)
  {
    match cut.action {
      case 0 => AddMeaning(m, cut.functionSelectors, cut.facetAddress);
      case 1 => ReplaceMeaning(m, cut.functionSelectors, cut.facetAddress, self);
      case _ => RemoveMeaning(m, cut.functionSelectors, self);
    }
  }

  /** Selectors routed to the diamond's own address survive every cut that succeeds. */
  lemma {:induction false} OwnFunctionsSurvive(m: Routes, cuts: seq<FacetCut>, self: Address, hasCode: Address -> bool)
    requires ApplyCuts(m, cuts, self, hasCode).Success?
    ensures KeepsOwn(m, ApplyCuts(m, cuts, self, hasCode).value, self)
    decreases |cuts|
  {
    if cuts != [] {
      OwnFunctionsSurviveOne(m, cuts[0], self, hasCode);
      OwnFunctionsSurvive(ApplyCut(m, cuts[0], self, hasCode).value, cuts[1..], self, hasCode);
    }
  }

  /** Removing what was just added to a facet other than the diamond restores the table. */
  lemma RemoveUndoesAdd(m: Routes, sels: seq<Bytes4>, facet: Address, self: Address, hasCode: Address -> bool)
    requires facet != self
    requires ApplyCut(m, FacetCut(facet, 0, sels), self, hasCode).Success?
    ensures ApplyCuts(m, [FacetCut(facet, 0, sels), FacetCut(ZERO, 2, sels)], self, hasCode) == Success(m)
  {
    var m' := ApplyCut(m, FacetCut(facet, 0, sels), self, hasCode).value;
    AddMeaning(m, sels, facet);
    RemoveMeaning(m', sels, self);
    assert m' - (set s | s in sels) == m;
    var rest := [FacetCut(facet, 0, sels), FacetCut(ZERO, 2, sels)][1..];
    assert rest == [FacetCut(ZERO, 2, sels)] && rest[1..] == [];
    assert ApplyCuts(m', rest, self, hasCode) == Success(m);
  }

  // ---------------------------------------------------------------- whole runs

  datatype DiamondState = DiamondState(routes: Routes, owner: Address, frozen: bool)

  /** A call that may change the diamond; `hasCode` is what holds code at the time of the cut. */
  datatype Call =
    | Cut(sender: Address, cuts: seq<FacetCut>, hasCode: Address -> bool, initSucceeds: bool)
    | Transfer(sender: Address, newOwner: Address)
    | Freeze(sender: Address)

  /** The state after a call; a call that reverts changes nothing. */
  function Serve(st: DiamondState, call: Call, self: Address): DiamondState {
    if call.sender != st.owner then st
    else match call
      case Transfer(_, newOwner) => st.(owner := newOwner)
      case Freeze(_) => st.(frozen := true)
      case Cut(_, cuts, hasCode, initSucceeds) =>
        if st.frozen || !initSucceeds then st
        else match ApplyCuts(st.routes, cuts, self, hasCode)
          case Failure(_) => st
          case Success(m) => st.(routes := m)
  }

  function ServeAll(st: DiamondState, calls: seq<Call>, self: Address): DiamondState
    decreases |calls|
  {
    if calls == [] then st else ServeAll(Serve(st, calls[0], self), calls[1..], self)
  }

  /** No run of calls, by whomever, changes the table of a frozen diamond or thaws it. */
  lemma {:induction false} FrozenIsFinal(st: DiamondState, calls: seq<Call>, self: Address)
    requires st.frozen
    ensures ServeAll(st, calls, self).routes == st.routes && ServeAll(st, calls, self).frozen
    decreases |calls|
  {
    if calls != [] {
      FrozenIsFinal(Serve(st, calls[0], self), calls[1..], self);
    }
  }

  /** No run of calls unroutes or reroutes a selector that is routed to the diamond's own address. */
  lemma {:induction false} OwnFunctionsOutliveRuns(st: DiamondState, calls: seq<Call>, self: Address)
    ensures KeepsOwn(st.routes, ServeAll(st, calls, self).routes, self)
    decreases |calls|
  {
    if calls != [] {
      var call, st' := calls[0], Serve(st, calls[0], self);
      OwnFunctionsOutliveRuns(st', calls[1..], self);
      if call.Cut? && st'.routes != st.routes {
        OwnFunctionsSurvive(st.routes, call.cuts, self, call.hasCode);
      }
    }
  }

  // ---------------------------------------------------------------- the concrete structures

  datatype Fap = Fap(facetAddress: Address, functionSelectorPosition: U96)
  datatype Ffs = Ffs(functionSelectors: seq<Bytes4>, facetAddressPosition: U256)

  /** A snapshot of the selector storage. An absent mapping entry reads as zero, as in the EVM. */
  datatype Tables = Tables(
    sel2facet: map<Bytes4, Fap>,
    facetSelectors: map<Address, Ffs>,
    facetAddresses: seq<Address>)
  {
    function Entry(sel: Bytes4): Fap {
      if sel in sel2facet then sel2facet[sel] else Fap(ZERO, 0)
    }

    function Facet(a: Address): Ffs {
      if a in facetSelectors then facetSelectors[a] else Ffs([], 0)
    }

    function List(a: Address): seq<Bytes4> {
      Facet(a).functionSelectors
    }

    function Pos(a: Address): U256 {
      Facet(a).facetAddressPosition
    }

    /** The abstract table the storage stands for. */
    ghost function Routes(): Routes {
      map s | s in sel2facet && sel2facet[s].facetAddress != ZERO :: sel2facet[s].facetAddress
    }

    /** A routed selector sits at its recorded position in its facet's list. */
    ghost predicate EntryOk(s: Bytes4) {
      var Fap(a, p) := Entry(s);
      a != ZERO ==> p < |List(a)| && List(a)[p] == s
    }

    /** The selector at position `p` of a facet's list routes back to that facet and position. */
    ghost predicate SlotOk(a: Address, p: nat) {
      p < |List(a)| ==>
        && a != ZERO
        && Entry(List(a)[p]).facetAddress == a
        && Entry(List(a)[p]).functionSelectorPosition == p
    }

    /** The two selector indexes are mutual inverses. */
    ghost predicate SelectorsLinked() {
      (forall s :: EntryOk(s)) && (forall a, p :: SlotOk(a, p))
    }

    /** The facet at position `i` of the facet list records that position. */
    ghost predicate ListedOk(i: nat, pending: set<Address>) {
      i < |facetAddresses| ==>
        var a := facetAddresses[i];
        a != ZERO && Pos(a) == i && (List(a) != [] || a in pending)
    }

    /** A facet with selectors, or a pending one, is in the facet list. */
    ghost predicate FacetOk(a: Address, pending: set<Address>) {
      List(a) != [] || a in pending ==> Pos(a) < |facetAddresses| && facetAddresses[Pos(a)] == a
    }

    /** The facet list and the recorded positions are mutual inverses, and the registered facets are
        those with selectors, together with the `pending` ones: the window between `__addFacet` and
        the first `__addFunction` leaves one facet registered with an empty list. */
    ghost predicate FacetsLinked(pending: set<Address>) {
      (forall i: nat :: ListedOk(i, pending)) && (forall a: Address :: FacetOk(a, pending))
    }

    ghost predicate LinkedExcept(pending: set<Address>) {
      SelectorsLinked() && FacetsLinked(pending)
    }

    ghost predicate Linked() {
      LinkedExcept({})
    }
  }

  /** Move the last element over position `i`, then drop the last. */
  function SwapPop<T>(s: seq<T>, i: nat): (r: seq<T>)
    requires i < |s|
  {
    var last := |s| - 1;
    if i == last then s[..last] else s[..last][i := s[last]]
  }

  /** Swap-and-pop loses exactly the element at `i`. */
  lemma SwapPopContents<T>(s: seq<T>, i: nat)
    requires i < |s|
    ensures multiset(SwapPop(s, i)) == multiset(s) - multiset{s[i]}
  {
    var last := |s| - 1;
    assert s == s[..last] + [s[last]];
    if i < last {
      assert s[..last] == s[..i] + [s[i]] + s[i+1..last];
      assert SwapPop(s, i) == s[..i] + [s[last]] + s[i+1..last];
    }
  }

  // ---------------------------------------------------------------- what each update does to the tables

  function WithFacet(t: Tables, facet: Address): Tables
    requires |t.facetAddresses| < TWO_256
  {
    t.(facetSelectors := t.facetSelectors[facet := Ffs(t.List(facet), |t.facetAddresses|)],
       facetAddresses := t.facetAddresses + [facet])
  }

  function WithFunction(t: Tables, sel: Bytes4, sp: U96, facet: Address): Tables {
    t.(sel2facet := t.sel2facet[sel := Fap(facet, sp)],
       facetSelectors := t.facetSelectors[facet := Ffs(t.List(facet) + [sel], t.Pos(facet))])
  }

  /** Selector `sel` leaves `facet`: its list loses it by swap-and-pop, the selector moved into the
      gap has its position corrected, and `sel` itself is unrouted. */
  function WithoutSelector(t: Tables, facet: Address, sel: Bytes4): Tables
    requires t.Entry(sel).functionSelectorPosition < |t.List(facet)|
  {
    var sp := t.Entry(sel).functionSelectorPosition;
    var moved := t.List(facet)[|t.List(facet)| - 1];
    t.(sel2facet := t.sel2facet[moved := t.Entry(moved).(functionSelectorPosition := sp)] - {sel},
       facetSelectors := t.facetSelectors[facet := Ffs(SwapPop(t.List(facet), sp), t.Pos(facet))])
  }

  /** A facet without selectors leaves the facet list, again by swap-and-pop. */
  function WithoutFacet(t: Tables, facet: Address): Tables
    requires t.Pos(facet) < |t.facetAddresses|
  {
    var p := t.Pos(facet);
    var moved := t.facetAddresses[|t.facetAddresses| - 1];
    var moved' := t.facetSelectors[moved := Ffs(t.List(moved), p)];
    var list := if facet in moved' then moved'[facet].functionSelectors else [];
    t.(facetSelectors := moved'[facet := Ffs(list, 0)],
       facetAddresses := SwapPop(t.facetAddresses, p))
  }

  function RemovedFunction(t: Tables, facet: Address, sel: Bytes4): Tables
    requires t.Entry(sel).functionSelectorPosition < |t.List(facet)|
    requires t.Pos(facet) < |t.facetAddresses|
  {
    var t' := WithoutSelector(t, facet, sel);
    if |t.List(facet)| == 1 then WithoutFacet(t', facet) else t'
  }

  lemma AddFacetKeepsLinks(t: Tables, facet: Address)
    requires t.Linked() && facet != ZERO && t.List(facet) == [] && |t.facetAddresses| < TWO_256
    ensures WithFacet(t, facet).LinkedExcept({facet})
    ensures WithFacet(t, facet).Routes() == t.Routes()
    ensures forall a: Address :: WithFacet(t, facet).List(a) == t.List(a)
  {
    var t' := WithFacet(t, facet);
    assert forall a: Address :: t'.List(a) == t.List(a);
    forall s: Bytes4 ensures t'.EntryOk(s) { assert t.EntryOk(s); }
    forall a: Address, p: nat ensures t'.SlotOk(a, p) { assert t.SlotOk(a, p); }
    forall i: nat ensures t'.ListedOk(i, {facet}) { assert t.ListedOk(i, {}); }
    forall a: Address ensures t'.FacetOk(a, {facet}) { assert t.FacetOk(a, {}); }
  }

  lemma AddFunctionKeepsLinks(t: Tables, sel: Bytes4, sp: U96, facet: Address, pending: set<Address>)
    requires t.LinkedExcept(pending) && facet != ZERO && t.Entry(sel).facetAddress == ZERO
    requires sp == |t.List(facet)|
    requires pending == if t.List(facet) == [] then {facet} else {}
    ensures WithFunction(t, sel, sp, facet).Linked()
    ensures WithFunction(t, sel, sp, facet).Routes() == t.Routes()[sel := facet]
    ensures WithFunction(t, sel, sp, facet).List(facet) == t.List(facet) + [sel]
  {
    var t' := WithFunction(t, sel, sp, facet);
    assert forall a: Address :: t'.Pos(a) == t.Pos(a);
    forall s: Bytes4 ensures t'.EntryOk(s) { assert t.EntryOk(s); }
    forall a: Address, p: nat ensures t'.SlotOk(a, p) { assert t.SlotOk(a, p); }
    forall i: nat ensures t'.ListedOk(i, {}) { assert t.ListedOk(i, pending); }
    forall a: Address ensures t'.FacetOk(a, {}) { assert t.FacetOk(a, pending); }
  }

  lemma RemoveSelectorKeepsLinks(t: Tables, facet: Address, sel: Bytes4)
    requires t.SelectorsLinked() && facet != ZERO && t.Entry(sel).facetAddress == facet
    ensures t.Entry(sel).functionSelectorPosition < |t.List(facet)|
    ensures WithoutSelector(t, facet, sel).SelectorsLinked()
    ensures WithoutSelector(t, facet, sel).Routes() == t.Routes() - {sel}
  {
    assert t.EntryOk(sel) && t.SlotOk(facet, |t.List(facet)| - 1);
    var t' := WithoutSelector(t, facet, sel);
    var sp := t.Entry(sel).functionSelectorPosition;
    var list := t.List(facet);
    var moved := list[|list| - 1];
    assert t.Entry(moved).facetAddress == facet && t.Entry(moved).functionSelectorPosition == |list| - 1;
    assert forall s: Bytes4 :: t'.Entry(s) ==
                       if s == sel then Fap(ZERO, 0)
                       else if s == moved then Fap(facet, sp)
                       else t.Entry(s);
    forall s: Bytes4 ensures t'.EntryOk(s) { assert t.EntryOk(s); }
    forall a: Address, p: nat ensures t'.SlotOk(a, p) {
      assert t.SlotOk(a, p);
      if p < |t'.List(a)| {
        assert t'.List(a)[p] == if a == facet && p == sp then moved else t.List(a)[p];
      }
    }
    forall s: Bytes4 ensures s in t'.Routes() <==> s in t.Routes() && s != sel {
      assert s in t'.Routes() <==> t'.Entry(s).facetAddress != ZERO;
      assert s in t.Routes() <==> t.Entry(s).facetAddress != ZERO;
    }
  }

  lemma RemoveFacetKeepsLinks(t: Tables, facet: Address, pending: set<Address>)
    requires t.LinkedExcept(pending + {facet}) && facet !in pending && t.List(facet) == []
    ensures t.Pos(facet) < |t.facetAddresses|
    ensures WithoutFacet(t, facet).LinkedExcept(pending)
    ensures WithoutFacet(t, facet).Routes() == t.Routes()
    ensures forall a: Address :: WithoutFacet(t, facet).List(a) == t.List(a)
  {
    assert t.FacetOk(facet, pending + {facet});
    var t' := WithoutFacet(t, facet);
    var p := t.Pos(facet);
    var last := |t.facetAddresses| - 1;
    var moved := t.facetAddresses[last];
    assert t.ListedOk(last, pending + {facet});
    assert forall a: Address :: t'.List(a) == t.List(a);
    assert forall a: Address :: t'.Pos(a) == if a == facet then 0 else if a == moved then p else t.Pos(a);
    forall s: Bytes4 ensures t'.EntryOk(s) { assert t.EntryOk(s); }
    forall a: Address, p: nat ensures t'.SlotOk(a, p) { assert t.SlotOk(a, p); }
    forall i: nat ensures t'.ListedOk(i, pending) {
      assert t.ListedOk(i, pending + {facet});
      if i < last {
        assert t'.facetAddresses[i] == if i == p then moved else t.facetAddresses[i];
      }
    }
    forall a: Address ensures t'.FacetOk(a, pending) {
      assert t.FacetOk(a, pending + {facet});
    }
  }

  /** `__removeFunction` keeps every link, whether or not the facet is left without selectors. */
  lemma RemoveFunctionKeepsLinks(t: Tables, facet: Address, sel: Bytes4, pending: set<Address>)
    requires t.LinkedExcept(pending) && facet != ZERO && t.Entry(sel).facetAddress == facet && facet !in pending
    ensures t.Entry(sel).functionSelectorPosition < |t.List(facet)|
    ensures t.Pos(facet) < |t.facetAddresses|
    ensures RemovedFunction(t, facet, sel).LinkedExcept(pending)
    ensures RemovedFunction(t, facet, sel).Routes() == t.Routes() - {sel}
    ensures forall a: Address :: RemovedFunction(t, facet, sel).List(a) ==
                        if a == facet then SwapPop(t.List(facet), t.Entry(sel).functionSelectorPosition) else t.List(a)
  {
    RemoveSelectorKeepsLinks(t, facet, sel);
    var t' := WithoutSelector(t, facet, sel);
    assert t.FacetOk(facet, pending);
    var pending' := if |t.List(facet)| == 1 then pending + {facet} else pending;
    assert t'.LinkedExcept(pending') by {
      forall i: nat ensures t'.ListedOk(i, pending') { assert t.ListedOk(i, pending); }
      forall a: Address ensures t'.FacetOk(a, pending') { assert t.FacetOk(a, pending); }
    }
    if |t.List(facet)| == 1 {
      RemoveFacetKeepsLinks(t', facet, pending);
    }
  }

  lemma SlotsDistinct(t: Tables, a: Address)
    requires t.SelectorsLinked()
    ensures Distinct(t.List(a))
  {
    forall i, j | 0 <= i < j < |t.List(a)| ensures t.List(a)[i] != t.List(a)[j] {
      assert t.SlotOk(a, i) && t.SlotOk(a, j);
    }
  }

  /** A facet's list holds exactly the selectors that route to it, each once. */
  lemma ListedIffRouted(t: Tables, a: Address)
    requires t.SelectorsLinked() && a != ZERO
    ensures t.List(a) != [] <==> a in t.Routes().Values
    ensures forall s: Bytes4 :: s in t.List(a) <==> s in t.Routes() && t.Routes()[s] == a
    ensures Distinct(t.List(a))
  {
    SlotsDistinct(t, a);
    forall s: Bytes4 ensures s in t.List(a) <==> s in t.Routes() && t.Routes()[s] == a {
      assert t.EntryOk(s);
      if s in t.List(a) {
        var p :| 0 <= p < |t.List(a)| && t.List(a)[p] == s;
        assert t.SlotOk(a, p);
      }
    }
    if t.List(a) != [] {
      assert t.List(a)[0] in t.Routes();
    }
  }

  /** The registered facets are exactly those some selector routes to, each listed once. */
  lemma FacetsListedIffRouted(t: Tables)
    requires t.Linked()
    ensures forall a: Address :: a in t.facetAddresses <==> a in t.Routes().Values
    ensures Distinct(t.facetAddresses)
  {
    forall a: Address ensures a in t.facetAddresses <==> a in t.Routes().Values {
      if a in t.facetAddresses {
        var i: nat :| i < |t.facetAddresses| && t.facetAddresses[i] == a;
        assert t.ListedOk(i, {});
        ListedIffRouted(t, a);
      }
      if a in t.Routes().Values {
        assert a != ZERO;
        ListedIffRouted(t, a);
        assert t.FacetOk(a, {});
      }
    }
    forall i, j | 0 <= i < j < |t.facetAddresses| ensures t.facetAddresses[i] != t.facetAddresses[j] {
      assert t.ListedOk(i, {}) && t.ListedOk(j, {});
    }
  }

  // ---------------------------------------------------------------- counting

  ghost function Below(n: nat): (r: set<int>)
    ensures |r| == n
    ensures forall x: int :: x in r <==> 0 <= x < n
  {
    if n == 0 then {} else Below(n - 1) + {n - 1}
  }

  lemma {:induction false} SubsetSize<T>(a: set<T>, b: set<T>)
    requires a <= b
    ensures |a| <= |b|
  {
    if x :| x in a {
      SubsetSize(a - {x}, b - {x});
    }
  }

  /** Pigeonhole: a set of naturals below `n` has at most `n` members. */
  lemma AtMost(s: set<int>, n: nat)
    requires forall x: int :: x in s ==> 0 <= x < n
    ensures |s| <= n
  {
    SubsetSize(s, Below(n));
  }

  ghost function SumLengths(t: Tables, n: nat): nat
    requires n <= |t.facetAddresses|
  {
    if n == 0 then 0 else SumLengths(t, n - 1) + |t.List(t.facetAddresses[n - 1])|
  }

  /** The selectors routed to one of the first `n` registered facets. */
  ghost function RoutedBefore(t: Tables, n: nat): set<Bytes4> {
    set s | s in t.Routes() && t.Pos(t.Routes()[s]) < n
  }

  lemma {:induction false} SumIsSize(t: Tables, n: nat)
    requires t.Linked() && n <= |t.facetAddresses|
    ensures |RoutedBefore(t, n)| == SumLengths(t, n)
    ensures n <= SumLengths(t, n)
  {
    if n == 0 {
      assert RoutedBefore(t, n) == {};
    } else {
      SumIsSize(t, n - 1);
      var a := t.facetAddresses[n - 1];
      assert t.ListedOk(n - 1, {});
      ListedIffRouted(t, a);
      DistinctSize(t.List(a));
      var here := Elements(t.List(a));
      forall s: Bytes4 ensures s in RoutedBefore(t, n) <==> s in RoutedBefore(t, n - 1) || s in here {
        if s in t.Routes() {
          assert t.EntryOk(s);
          assert t.FacetOk(t.Routes()[s], {});
        }
      }
      assert RoutedBefore(t, n) == RoutedBefore(t, n - 1) + here;
    }
  }

  /** Distinct four-byte selectors bound every list by pigeonhole. */
  lemma ListIsBounded(t: Tables, a: Address)
    requires t.SelectorsLinked()
    ensures |t.List(a)| <= TWO_32
  {
    SlotsDistinct(t, a);
    DistinctSize(t.List(a));
    AtMost(Elements(t.List(a)), TWO_32);
  }

  lemma RemovalInRange(t: Tables, facet: Address, sel: Bytes4, pending: set<Address>)
    requires t.LinkedExcept(pending) && facet != ZERO && t.Entry(sel).facetAddress == facet
    ensures 0 < |t.List(facet)| <= TWO_32 && 0 < |t.facetAddresses| <= TWO_256
    ensures t.Entry(sel).functionSelectorPosition < |t.List(facet)|
    ensures t.List(facet)[t.Entry(sel).functionSelectorPosition] == sel
    ensures t.Pos(facet) < |t.facetAddresses| && t.facetAddresses[t.Pos(facet)] == facet
  {
    ListIsBounded(t, facet);
    assert t.EntryOk(sel) && t.FacetOk(facet, pending) && t.ListedOk(|t.facetAddresses| - 1, pending);
  }

  /** No list arithmetic can go wrong: every list and the facet list itself hold at most 2^32
      entries, and the list lengths over the registered facets add up to the number of routed
      selectors. */
  lemma ListsAreBounded(t: Tables)
    requires t.Linked()
    ensures |t.Routes()| <= TWO_32
    ensures SumLengths(t, |t.facetAddresses|) == |t.Routes()|
    ensures forall a: Address :: |t.List(a)| <= TWO_32
    ensures |t.facetAddresses| <= |t.Routes()|
  {
    AtMost(t.Routes().Keys, TWO_32);
    SumIsSize(t, |t.facetAddresses|);
    forall s: Bytes4 ensures s in t.Routes() <==> s in RoutedBefore(t, |t.facetAddresses|) {
      if s in t.Routes() {
        assert t.EntryOk(s);
        assert t.FacetOk(t.Routes()[s], {});
      }
    }
    assert t.Routes().Keys == RoutedBefore(t, |t.facetAddresses|);
    forall a: Address ensures |t.List(a)| <= TWO_32 {
      ListIsBounded(t, a);
    }
  }

  // ---------------------------------------------------------------- the contract

  /** The synthesized contract. A revert is a `Failure` that leaves the storage as it was. The
      caller, the code at other addresses and the outcome of the `_init` delegatecall are
      parameters; `U96`/`U256` make every checked addition, subtraction and cast a proof obligation,
      and every array access is in range, so none of the Panic reverts of the source can occur. */
  class DiamondContract {
    const self: Address
    var sel2facet: map<Bytes4, Fap>
    var facetSelectors: map<Address, Ffs>
    var facetAddresses: seq<Address>
    var contractOwner: Address
    var frozen: U256

    function Storage(): Tables
      reads this
    {
      Tables(sel2facet, facetSelectors, facetAddresses)
    }

    ghost predicate Valid()
      reads this
    {
      Storage().Linked()
    }

    ghost function Routes(): Routes
      reads this
    {
      Storage().Routes()
    }

    ghost function State(): DiamondState
      reads this
    {
      DiamondState(Routes(), contractOwner, frozen != 0)
    }

    constructor (self: Address, owner: Address)
      ensures Valid() && Routes() == map[]
      ensures this.self == self && contractOwner == owner && frozen == 0
    {
      this.self := self;
      sel2facet, facetSelectors, facetAddresses := map[], map[], [];
      contractOwner, frozen := owner, 0;
      new;
      var t := Storage();
      assert forall s: Bytes4 :: t.Entry(s).facetAddress == ZERO;
      assert forall a: Address :: t.List(a) == [];
    }

    /** The facets that may be registered without selectors while a cut entry works on `facet`. */
    ghost function Pending(facet: Address): set<Address>
      reads this
    {
      if Storage().List(facet) == [] then {facet} else {}
    }

    method AddFacet(facet: Address, hasCode: Address -> bool) returns (e: Option<CutError>)
      requires Valid() && facet != ZERO && Storage().List(facet) == []
      modifies this`facetSelectors, this`facetAddresses
      ensures |old(facetAddresses)| < TWO_256
      ensures e == if hasCode(facet) then None else Some(FacetHasNoCode)
      ensures Storage() == if hasCode(facet) then WithFacet(old(Storage()), facet) else old(Storage())
      ensures hasCode(facet) ==> Storage().LinkedExcept({facet}) && Routes() == old(Routes())
      ensures Storage().List(facet) == []
    {
      ListsAreBounded(Storage());
      AddFacetKeepsLinks(Storage(), facet);
      if !hasCode(facet) {
        return Some(FacetHasNoCode);
      }
      facetSelectors := facetSelectors[facet := Storage().Facet(facet).(facetAddressPosition := |facetAddresses|)];
      facetAddresses := facetAddresses + [facet];
      return None;
    }

    method AddFunction(sel: Bytes4, sp: U96, facet: Address)
      requires Storage().LinkedExcept(Pending(facet)) && facet != ZERO && Storage().Entry(sel).facetAddress == ZERO
      requires sp == |Storage().List(facet)|
      modifies this`sel2facet, this`facetSelectors
      ensures Storage() == WithFunction(old(Storage()), sel, sp, facet)
      ensures Valid() && Routes() == old(Routes())[sel := facet]
      ensures Storage().List(facet) == old(Storage().List(facet)) + [sel]
    {
      AddFunctionKeepsLinks(Storage(), sel, sp, facet, Pending(facet));
      sel2facet := sel2facet[sel := Storage().Entry(sel).(functionSelectorPosition := sp)];
      var ffs := Storage().Facet(facet);
      facetSelectors := facetSelectors[facet := ffs.(functionSelectors := ffs.functionSelectors + [sel])];
      sel2facet := sel2facet[sel := Storage().Entry(sel).(facetAddress := facet)];
    }

    method RemoveFunction(facet: Address, sel: Bytes4, ghost pending: set<Address>) returns (e: Option<CutError>)
      requires Storage().LinkedExcept(pending) && facet == Storage().Entry(sel).facetAddress && facet !in pending
      modifies this`sel2facet, this`facetSelectors, this`facetAddresses
      ensures e == if facet == ZERO then Some(RemoveMissing) else if facet == self then Some(RemoveImmutable) else None
      ensures e.Some? ==> Storage() == old(Storage())
      ensures e.None? ==>
                && old(Storage()).Entry(sel).functionSelectorPosition < |old(Storage()).List(facet)|
                && old(Storage()).Pos(facet) < |old(facetAddresses)|
                && Storage() == RemovedFunction(old(Storage()), facet, sel)
                && Storage().LinkedExcept(pending)
                && Routes() == old(Routes()) - {sel}
                && forall a: Address :: a != facet ==> Storage().List(a) == old(Storage()).List(a)
    {
      hide Tables.LinkedExcept, Tables.SelectorsLinked, Tables.FacetsLinked;
      if facet == ZERO {
        return Some(RemoveMissing);
      }
      if facet == self {
        return Some(RemoveImmutable);
      }
      RemoveFunctionKeepsLinks(Storage(), facet, sel, pending);
      RemovalInRange(Storage(), facet, sel, pending);
      ghost var t := Storage();
      var sp: U256 := Storage().Entry(sel).functionSelectorPosition;
      var ffs := Storage().Facet(facet);
      var lastSp: U256 := |ffs.functionSelectors| - 1;
      if sp != lastSp {
        var lastSel := ffs.functionSelectors[lastSp];
        ffs := ffs.(functionSelectors := ffs.functionSelectors[sp := lastSel]);
        sel2facet := sel2facet[lastSel := Storage().Entry(lastSel).(functionSelectorPosition := sp)];
      }
      facetSelectors := facetSelectors[facet := ffs.(functionSelectors := ffs.functionSelectors[..lastSp])];
      sel2facet := sel2facet - {sel};
      assert ffs.functionSelectors[..lastSp] == SwapPop(t.List(facet), sp);
      assert Storage() == WithoutSelector(t, facet, sel);
      if lastSp == 0 {
        DropFacet(facet);
      }
      return None;
    }

    /** The tail of `__removeFunction`: a facet left without selectors is unregistered. */
    method DropFacet(facet: Address)
      requires Storage().Pos(facet) < |facetAddresses| <= TWO_256 && facetAddresses[Storage().Pos(facet)] == facet
      modifies this`facetSelectors, this`facetAddresses
      ensures Storage() == WithoutFacet(old(Storage()), facet)
    {
      ghost var t := Storage();
      var lastFap: U256 := |facetAddresses| - 1;
      var fap := Storage().Pos(facet);
      if fap != lastFap {
        var lastFa := facetAddresses[lastFap];
        facetAddresses := facetAddresses[fap := lastFa];
        facetSelectors := facetSelectors[lastFa := Storage().Facet(lastFa).(facetAddressPosition := fap)];
      }
      facetAddresses := facetAddresses[..lastFap];
      facetSelectors := facetSelectors[facet := Storage().Facet(facet).(facetAddressPosition := 0)];
      assert facetAddresses == SwapPop(t.facetAddresses, fap);
    }

    /** The opening of the add and replace branches: the first free position in the facet's list,
        registering the facet if it has none. The cast to 96 bits loses nothing. */
    method OpenFacet(facet: Address, hasCode: Address -> bool) returns (sp: U96, e: Option<CutError>)
      requires Valid() && facet != ZERO
      modifies this`facetSelectors, this`facetAddresses
      ensures e == if facet in old(Routes()).Values || hasCode(facet) then None else Some(FacetHasNoCode)
      ensures e.None? ==> Storage().LinkedExcept(Pending(facet)) && Routes() == old(Routes())
      ensures sp == |Storage().List(facet)|
    {
      sp := |Storage().List(facet)| % TWO_96;
      e := None;
      ListIsBounded(Storage(), facet);
      ListedIffRouted(Storage(), facet);
      if sp == 0 {
        e := AddFacet(facet, hasCode);
      }
    }

    /** The branch for action 0. */
    method CutAdd(facet: Address, sels: seq<Bytes4>, hasCode: Address -> bool) returns (r: Result<(), CutError>)
      requires Valid() && facet != ZERO && sels != []
      modifies this`sel2facet, this`facetSelectors, this`facetAddresses
      ensures Outcome(ApplyCut(old(Routes()), FacetCut(facet, 0, sels), self, hasCode), r)
    {
      var sp, e := OpenFacet(facet, hasCode);
      if e.Some? {
        return Failure(e.value);
      }
      for j := 0 to |sels|
        invariant Storage().LinkedExcept(Pending(facet))
        invariant sp == |Storage().List(facet)| && (j > 0 ==> sp > 0)
        invariant AddAll(old(Routes()), sels, facet) == AddAll(Routes(), sels[j..], facet)
      {
        var sel := sels[j];
        assert Storage().EntryOk(sel);
        if Storage().Entry(sel).facetAddress != ZERO {
          return Failure(AlreadyExists);
        }
        AddFunction(sel, sp, facet);
        ListIsBounded(Storage(), facet);
        sp := sp + 1;
      }
      return Success(());
    }

    /** The body of the replace loop. */
    method ReplaceFunction(sel: Bytes4, sp: U96, facet: Address) returns (e: Option<CutError>)
      requires Storage().LinkedExcept(Pending(facet)) && facet != ZERO && sp == |Storage().List(facet)|
      modifies this`sel2facet, this`facetSelectors, this`facetAddresses
      ensures e == if sel !in old(Routes()) then Some(ReplaceMissing)
                   else if old(Routes())[sel] == facet then Some(SameFunction)
                   else if old(Routes())[sel] == self then Some(ReplaceImmutable)
                   else None
      ensures e.None? ==> Valid() && Routes() == old(Routes())[sel := facet]
      ensures e.None? ==> |Storage().List(facet)| == sp + 1 < TWO_96
    {
      assert Storage().EntryOk(sel);
      var oldFacet := Storage().Entry(sel).facetAddress;
      if oldFacet == facet {
        return Some(SameFunction);
      }
      if oldFacet == ZERO {
        return Some(ReplaceMissing);
      }
      if oldFacet == self {
        return Some(ReplaceImmutable);
      }
      e := RemoveFunction(oldFacet, sel, Pending(facet));
      if e.None? {
        AddFunction(sel, sp, facet);
        ListIsBounded(Storage(), facet);
      }
    }

    /** The branch for action 1: each selector is taken from its facet and given to the new one. */
    method CutReplace(facet: Address, sels: seq<Bytes4>, hasCode: Address -> bool) returns (r: Result<(), CutError>)
      requires Valid() && facet != ZERO && sels != []
      modifies this`sel2facet, this`facetSelectors, this`facetAddresses
      ensures Outcome(ApplyCut(old(Routes()), FacetCut(facet, 1, sels), self, hasCode), r)
    {
      var sp, e := OpenFacet(facet, hasCode);
      if e.Some? {
        return Failure(e.value);
      }
      for j := 0 to |sels|
        invariant Storage().LinkedExcept(Pending(facet))
        invariant sp == |Storage().List(facet)| && (j > 0 ==> sp > 0)
        invariant ReplaceAll(old(Routes()), sels, facet, self) == ReplaceAll(Routes(), sels[j..], facet, self)
      {
        var e' := ReplaceFunction(sels[j], sp, facet);
        if e'.Some? {
          return Failure(e'.value);
        }
        sp := sp + 1;
      }
      return Success(());
    }

    /** The branch for action 2. */
    method CutRemove(sels: seq<Bytes4>, ghost hasCode: Address -> bool) returns (r: Result<(), CutError>)
      requires Valid() && sels != []
      modifies this`sel2facet, this`facetSelectors, this`facetAddresses
      ensures Outcome(ApplyCut(old(Routes()), FacetCut(ZERO, 2, sels), self, hasCode), r)
    {
      for j := 0 to |sels|
        invariant Valid()
        invariant RemoveAll(old(Routes()), sels, self) == RemoveAll(Routes(), sels[j..], self)
      {
        var sel := sels[j];
        var e := RemoveFunction(Storage().Entry(sel).facetAddress, sel, {});
        if e.Some? {
          return Failure(e.value);
        }
      }
      return Success(());
    }

    /** The loop over the cut entries. */
    method RunCuts(cuts: seq<FacetCut>, hasCode: Address -> bool) returns (r: Result<(), CutError>)
      requires Valid()
      modifies this`sel2facet, this`facetSelectors, this`facetAddresses
      ensures Outcome(ApplyCuts(old(Routes()), cuts, self, hasCode), r)
    {
      for c := 0 to |cuts|
        invariant Valid()
        invariant ApplyCuts(old(Routes()), cuts, self, hasCode) == ApplyCuts(Routes(), cuts[c..], self, hasCode)
      {
        var FacetCut(facet, action, sels) := cuts[c];
        assert cuts[c..][0] == cuts[c] && cuts[c..][1..] == cuts[c + 1..];
        if action == 0 || action == 1 {
          if |sels| == 0 {
            return Failure(NoSelectors);
          }
          if facet == ZERO {
            return Failure(AddFacetIsZero);
          }
          if action == 0 {
            r := CutAdd(facet, sels, hasCode);
          } else {
            r := CutReplace(facet, sels, hasCode);
          }
        } else if action == 2 {
          if |sels| == 0 {
            return Failure(NoSelectors);
          }
          if facet != ZERO {
            return Failure(RemoveFacetNotZero);
          }
          r := CutRemove(sels, hasCode);
        } else {
          return Failure(IncorrectAction);
        }
        if r.Failure? {
          return;
        }
      }
      return Success(());
    }

    /** `diamondCut`: for the owner of an unfrozen diamond it does to the routes exactly what the
        abstract cut does, and fails with exactly the abstract cut's error. */
    method DiamondCut(sender: Address, cuts: seq<FacetCut>, hasCode: Address -> bool, initSucceeds: bool)
      returns (r: Result<(), CutError>)
      requires Valid()
      modifies this`sel2facet, this`facetSelectors, this`facetAddresses
      ensures Valid()
      ensures sender != contractOwner ==> r == Failure(NotOwner)
      ensures sender == contractOwner && frozen != 0 ==> r == Failure(IsFrozen)
      ensures sender == contractOwner && frozen == 0 ==>
                match ApplyCuts(old(Routes()), cuts, self, hasCode)
                case Failure(e) => r == Failure(e)
                case Success(m) =>
                  if initSucceeds then r == Success(()) && Routes() == m else r == Failure(InitReverted)
      ensures sender == contractOwner && frozen == 0 ==>
                CutOutcome(old(Routes()), cuts, self, hasCode, initSucceeds, r, Routes())
      ensures r.Failure? ==> Storage() == old(Storage())
      ensures State() == Serve(old(State()), Cut(sender, cuts, hasCode, initSucceeds), self)
    {
      var saved := Storage();
      if sender != contractOwner {
        return Failure(NotOwner);
      }
      if frozen != 0 {
        return Failure(IsFrozen);
      }
      ghost var ms := CutsMeaning(Routes(), cuts, self, hasCode);
      r := RunCuts(cuts, hasCode);
      if r.Success? && !initSucceeds {
        r := Failure(InitReverted);
      }
      if r.Failure? {
        sel2facet, facetSelectors, facetAddresses := saved.sel2facet, saved.facetSelectors, saved.facetAddresses;
      }
    }

    method TransferOwnership(sender: Address, newOwner: Address) returns (r: Result<(), CutError>)
      modifies this`contractOwner
      ensures r == if sender == old(contractOwner) then Success(()) else Failure(NotOwner)
      ensures contractOwner == if sender == old(contractOwner) then newOwner else old(contractOwner)
      ensures State() == Serve(old(State()), Transfer(sender, newOwner), self)
    {
      if sender != contractOwner {
        return Failure(NotOwner);
      }
      contractOwner := newOwner;
      return Success(());
    }

    method FreezeDiamond(sender: Address) returns (r: Result<(), CutError>)
      modifies this`frozen
      ensures r == if sender == contractOwner then Success(()) else Failure(NotOwner)
      ensures frozen == if sender == contractOwner then 1 else old(frozen)
      ensures State() == Serve(old(State()), Freeze(sender), self)
    {
      if sender != contractOwner {
        return Failure(NotOwner);
      }
      frozen := 1;
      return Success(());
    }

    /** The loupe's copy loop: exactly the selectors that route to the facet, each once. */
    method FacetFunctionSelectors(facet: Address) returns (out: seq<Bytes4>)
      requires Valid()
      ensures facet != ZERO ==> forall s: Bytes4 :: s in out <==> s in Routes() && Routes()[s] == facet
      ensures out == Storage().List(facet) && (facet == ZERO ==> out == [])
      ensures Distinct(out)
    {
      var list := Storage().List(facet);
      out := [];
      for i := 0 to |list|
        invariant out == list[..i]
      {
        out := out + [list[i]];
      }
      SlotsDistinct(Storage(), facet);
      if facet == ZERO {
        assert Storage().SlotOk(facet, 0);
      } else {
        ListedIffRouted(Storage(), facet);
      }
    }

    /** The facet list holds exactly the facets some selector routes to, each once. */
    method FacetAddresses() returns (out: seq<Address>)
      requires Valid()
      ensures out == facetAddresses
      ensures forall a: Address :: a in out <==> a in Routes().Values
      ensures Distinct(out)
    {
      out := facetAddresses;
      FacetsListedIffRouted(Storage());
    }

    method FacetAddress(sel: Bytes4) returns (a: Address)
      requires Valid()
      ensures a == if sel in Routes() then Routes()[sel] else ZERO
      ensures a != ZERO <==> sel in Routes()
    {
      a := Storage().Entry(sel).facetAddress;
    }

    /** What the abstract table says must happen, against what did. */
    ghost predicate Outcome(expected: Result<Routes, CutError>, r: Result<(), CutError>)
      reads this
    {
      match expected
      case Success(m) => r == Success(()) && Valid() && Routes() == m
      case Failure(e) => r == Failure(e)
    }
  }
}
