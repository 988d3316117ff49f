/** Library linking (`Harness.deployLinked` in `src/evm.ts`): substituting addresses into bytecode, and
    deploying libraries bottom-up. */
module Linking {
  import opened Sequences
  import opened Wrappers

  datatype Position = Position(start: nat, length: nat)
  datatype LibraryRefs = LibraryRefs(name: string, positions: seq<Position>)

  /** Per source file, per library: where its placeholder stands, in bytes. */
  type LinkRefs = seq<seq<LibraryRefs>>

  datatype LinkError = NoSuchLibrary(name: string) | BadLength(length: nat)

  function Strip0x(s: string): string {
    if |s| >= 2 && s[0] == '0' && s[1] == 'x' then s[2..] else s
  }

  /** `0x` in front is dropped, and nothing else. */
  lemma Strip0xIs(digits: string)
    ensures Strip0x("0x" + digits) == digits
    ensures (forall d :: digits != "0x" + d) ==> Strip0x(digits) == digits
  {
    assert ("0x" + digits)[2..] == digits;
    if |digits| >= 2 && digits[0] == '0' && digits[1] == 'x' {
      assert digits == "0x" + digits[2..];
    }
  }

  /** An address as text: at most 40 digits, with or without `0x`. */
  type AddressText = s: string | |Strip0x(s)| <= 40 witness "0x"

  function PadStart(s: string, n: nat): (r: string)
    ensures |s| <= n ==> |r| == n
    decreases n - |s|
  {
    if |s| >= n then s else PadStart(['0'] + s, n)
  }

  function AddressHex(a: AddressText): (h: string)
    ensures |h| == 40
  {
    PadStart(Strip0x(a), 40)
  }

  /** Digit `k` of an address in code: its digits stand at the end, behind zeros. */
  function AddressDigit(a: AddressText, k: nat): char
    requires k < 40
  {
    var digits, zeros := Strip0x(a), 40 - |Strip0x(a)|;
    if k < zeros then '0' else digits[k - zeros]
  }

  lemma AddressHexIs(a: AddressText, k: nat)
    requires k < 40
    ensures AddressHex(a)[k] == AddressDigit(a, k)
  {
    PadStartAt(Strip0x(a), 40, k);
  }

  lemma {:induction false} PadStartAt(s: string, n: nat, k: nat)
    requires |s| <= n && k < n
    ensures PadStart(s, n)[k] == if k < n - |s| then '0' else s[k - (n - |s|)]
    decreases n - |s|
  {
    if |s| < n {
      PadStartAt(['0'] + s, n, k);
    }
  }

  /** JavaScript's `slice`, which clamps its bounds. */
  function SliceTo(s: string, n: nat): string {
    if n <= |s| then s[..n] else s
  }

  function SliceFrom(s: string, n: nat): string {
    if n <= |s| then s[n..] else ""
  }

  function Substitute(hex: string, start: nat, addr: string): string {
    SliceTo(hex, start * 2) + addr + SliceFrom(hex, start * 2 + 40)
  }

  // ---------------------------------------------------------------- what linking does

  /** The events of one run: a library is looked up, then substituted at each of its positions. */
  datatype Step = Look(name: string) | Put(name: string, at: Position)

  function Puts(name: string, ps: seq<Position>): seq<Step> {
    if ps == [] then [] else [Put(name, ps[0])] + Puts(name, ps[1..])
  }

  function StepsOfFile(libs: seq<LibraryRefs>): seq<Step> {
    if libs == [] then [] else [Look(libs[0].name)] + Puts(libs[0].name, libs[0].positions) + StepsOfFile(libs[1..])
  }

  function Steps(refs: LinkRefs): seq<Step> {
    if refs == [] then [] else StepsOfFile(refs[0]) + Steps(refs[1..])
  }

  function RunStep(hex: string, deployed: map<string, AddressText>, step: Step): Result<string, LinkError> {
    if step.name !in deployed then Failure(NoSuchLibrary(step.name))
    else match step
      case Look(_) => Success(hex)
      case Put(name, Position(start, length)) =>
        if length != 20 then Failure(BadLength(length))
        else Success(Substitute(hex, start, AddressHex(deployed[name])))
  }

  function Run(hex: string, deployed: map<string, AddressText>, steps: seq<Step>): Result<string, LinkError>
    decreases |steps|
  {
    if steps == [] then Success(hex)
    else
      var hex' :- RunStep(hex, deployed, steps[0]);
      Run(hex', deployed, steps[1..])
  }

  lemma {:induction false} RunConcat(hex: string, deployed: map<string, AddressText>, a: seq<Step>, b: seq<Step>)
    ensures Run(hex, deployed, a + b) ==
            match Run(hex, deployed, a) case Success(h) => Run(h, deployed, b) case Failure(e) => Failure(e)
    decreases |a|
  {
    if a == [] {
      assert a + b == b;
    } else {
      assert a + b == [a[0]] + (a[1..] + b);
      var r := RunStep(hex, deployed, a[0]);
      if r.Success? {
        RunConcat(r.value, deployed, a[1..], b);
      }
    }
  }

  /** The source's `link`: three nested loops overwriting one string. */
  method Link(hex0: string, refs: LinkRefs, deployed: map<string, AddressText>) returns (r: Result<string, LinkError>)
    ensures r == Run(Strip0x(hex0), deployed, Steps(refs))
    ensures LinkOutcome(Strip0x(hex0), refs, deployed, r)
  {
    hide LinkOutcome;
    LinkMeaning(Strip0x(hex0), refs, deployed);
    var hex := Strip0x(hex0);
    for f := 0 to |refs|
      invariant Run(hex, deployed, Steps(refs[f..])) == Run(Strip0x(hex0), deployed, Steps(refs))
    {
      r := LinkFile(hex, refs[f], deployed);
      RunConcat(hex, deployed, StepsOfFile(refs[f]), Steps(refs[f + 1..]));
      assert refs[f..][1..] == refs[f + 1..];
      if r.Failure? {
        return;
      }
      hex := r.value;
    }
    return Success(hex);
  }

  method LinkFile(hex0: string, libs: seq<LibraryRefs>, deployed: map<string, AddressText>)
    returns (r: Result<string, LinkError>)
    ensures r == Run(hex0, deployed, StepsOfFile(libs))
  {
    var hex := hex0;
    for l := 0 to |libs|
      invariant Run(hex, deployed, StepsOfFile(libs[l..])) == Run(hex0, deployed, StepsOfFile(libs))
    {
      var LibraryRefs(name, positions) := libs[l];
      assert libs[l..][1..] == libs[l + 1..];
      var look, puts, rest := [Look(name)], Puts(name, positions), StepsOfFile(libs[l + 1..]);
      assert StepsOfFile(libs[l..]) == look + puts + rest;
      RunConcat(hex, deployed, look + puts, rest);
      RunConcat(hex, deployed, look, puts);
      assert Run(hex, deployed, look) == RunStep(hex, deployed, Look(name)) by { assert look[1..] == []; }
      if name !in deployed {
        return Failure(NoSuchLibrary(name));
      }
      r := LinkLibrary(hex, name, positions, deployed);
      if r.Failure? {
        return;
      }
      hex := r.value;
    }
    return Success(hex);
  }

  method LinkLibrary(hex0: string, name: string, positions: seq<Position>, deployed: map<string, AddressText>)
    returns (r: Result<string, LinkError>)
    requires name in deployed
    ensures r == Run(hex0, deployed, Puts(name, positions))
  {
    var hex := hex0;
    var addrHex := AddressHex(deployed[name]);
    for p := 0 to |positions|
      invariant Run(hex, deployed, Puts(name, positions[p..])) == Run(hex0, deployed, Puts(name, positions))
    {
      var Position(start, length) := positions[p];
      assert positions[p..][1..] == positions[p + 1..];
      if length != 20 {
        return Failure(BadLength(length));
      }
      hex := Substitute(hex, start, addrHex);
    }
    return Success(hex);
  }

  // ---------------------------------------------------------------- placeholders

  /** The placeholder lies within a string of length `n`. */
  predicate InRange(n: nat, step: Step) {
    step.Put? ==> step.at.start * 2 + 40 <= n
  }

  predicate Covers(step: Step, i: nat) {
    step.Put? && step.at.start * 2 <= i < step.at.start * 2 + 40
  }

  predicate Apart(a: Step, b: Step) {
    a.Put? && b.Put? ==> a.at.start + 20 <= b.at.start || b.at.start + 20 <= a.at.start
  }

  ghost predicate AllInRange(n: nat, steps: seq<Step>) {
    forall s :: s in steps ==> InRange(n, s)
  }

  /** No two placeholders overlap. */
  ghost predicate AllApart(steps: seq<Step>) {
    steps == [] || ((forall s :: s in steps[1..] ==> Apart(steps[0], s)) && AllApart(steps[1..]))
  }

  lemma SubstituteLength(hex: string, start: nat, addr: string)
    requires |addr| == 40
    ensures |Substitute(hex, start, addr)| >= |hex|
    ensures |Substitute(hex, start, addr)| == |hex| <==> start * 2 + 40 <= |hex|
  { }

  lemma SubstituteAt(hex: string, start: nat, addr: string, i: nat)
    requires |addr| == 40 && start * 2 + 40 <= |hex| && i < |hex|
    ensures |Substitute(hex, start, addr)| == |hex|
    ensures Substitute(hex, start, addr)[i] == if start * 2 <= i < start * 2 + 40 then addr[i - start * 2] else hex[i]
  { }

  /** Linking never shortens the code, and keeps its length exactly when every placeholder lies within it. */
  lemma {:induction false} LinkKeepsLength(hex: string, deployed: map<string, AddressText>, steps: seq<Step>)
    requires Run(hex, deployed, steps).Success?
    ensures |Run(hex, deployed, steps).value| >= |hex|
    ensures |Run(hex, deployed, steps).value| == |hex| <==> AllInRange(|hex|, steps)
    decreases |steps|
  {
    if steps != [] {
      var s := steps[0];
      var hex' := RunStep(hex, deployed, s).value;
      if s.Put? {
        SubstituteLength(hex, s.at.start, AddressHex(deployed[s.name]));
      }
      LinkKeepsLength(hex', deployed, steps[1..]);
      assert steps == [s] + steps[1..];
      assert AllInRange(|hex|, steps) <==> InRange(|hex|, s) && AllInRange(|hex|, steps[1..]);
    }
  }

  /** The linked code character by character: the address digits of the one placeholder that covers the
      position, or the original character if none does. */
  ghost predicate LinkedAt(hex: string, deployed: map<string, AddressText>, steps: seq<Step>, r: string, i: nat)
    requires i < |hex| == |r|
  {
    && (forall s :: s in steps && Covers(s, i) ==>
          s.name in deployed && r[i] == AddressDigit(deployed[s.name], i - s.at.start * 2))
    && ((forall s :: s in steps ==> !Covers(s, i)) ==> r[i] == hex[i])
  }

  lemma {:induction false} LinkIsPointwise(hex: string, deployed: map<string, AddressText>, steps: seq<Step>, i: nat)
    requires Run(hex, deployed, steps).Success? && AllInRange(|hex|, steps) && AllApart(steps) && i < |hex|
    ensures |Run(hex, deployed, steps).value| == |hex|
    ensures LinkedAt(hex, deployed, steps, Run(hex, deployed, steps).value, i)
    decreases |steps|
  {
    LinkKeepsLength(hex, deployed, steps);
    if steps != [] {
      hide LinkedAt, Substitute, AddressHex, AddressDigit;
      var s := steps[0];
      var hex' := RunStep(hex, deployed, s).value;
      assert steps == [s] + steps[1..] && InRange(|hex|, s);
      if s.Put? {
        SubstituteAt(hex, s.at.start, AddressHex(deployed[s.name]), i);
        if Covers(s, i) {
          AddressHexIs(deployed[s.name], i - s.at.start * 2);
        }
      }
      LinkIsPointwise(hex', deployed, steps[1..], i);
      LinkedCons(hex, hex', deployed, steps, Run(hex, deployed, steps).value, i);
    }
  }

  lemma LinkedCons(hex: string, hex': string, deployed: map<string, AddressText>, steps: seq<Step>, r: string, i: nat)
    requires steps != [] && i < |hex| == |hex'| == |r| && AllApart(steps) && steps[0].name in deployed
    requires var s := steps[0];
             hex'[i] == if Covers(s, i) then AddressDigit(deployed[s.name], i - s.at.start * 2) else hex[i]
    requires LinkedAt(hex', deployed, steps[1..], r, i)
    ensures LinkedAt(hex, deployed, steps, r, i)
  {
    var s := steps[0];
    assert forall t :: t in steps <==> t == s || t in steps[1..];
    assert Covers(s, i) ==> forall t :: t in steps[1..] ==> !Covers(t, i);
  }

  /** The order of the substitutions does not matter. */
  lemma LinkOrderIrrelevant(hex: string, deployed: map<string, AddressText>, a: seq<Step>, b: seq<Step>)
    requires Run(hex, deployed, a).Success? && Run(hex, deployed, b).Success?
    requires AllInRange(|hex|, a) && AllApart(a) && AllInRange(|hex|, b) && AllApart(b)
    requires forall s: Step :: s.Put? ==> (s in a <==> s in b)
    ensures Run(hex, deployed, a) == Run(hex, deployed, b)
  {
    var r, q := Run(hex, deployed, a).value, Run(hex, deployed, b).value;
    LinkKeepsLength(hex, deployed, a);
    LinkKeepsLength(hex, deployed, b);
    forall i: nat | i < |hex| ensures r[i] == q[i] {
      LinkIsPointwise(hex, deployed, a, i);
      LinkIsPointwise(hex, deployed, b, i);
      if s :| s in a && Covers(s, i) {
        assert s in b;
      }
    }
    assert r == q;
  }

  // ---------------------------------------------------------------- what the references demand

  ghost predicate Referenced(refs: LinkRefs, name: string) {
    exists f, l :: f in refs && l in f && l.name == name
  }

  /** The references list a placeholder for the library at `at`. */
  ghost predicate Listed(refs: LinkRefs, name: string, at: Position) {
    exists f, l :: f in refs && l in f && l.name == name && at in l.positions
  }

  lemma {:induction false} PutsIff(name: string, ps: seq<Position>, s: Step)
    ensures s in Puts(name, ps) <==> s.Put? && s.name == name && s.at in ps
  {
    if ps != [] {
      PutsIff(name, ps[1..], s);
      assert ps == [ps[0]] + ps[1..];
    }
  }

  ghost predicate Demands(libs: seq<LibraryRefs>, s: Step) {
    exists l :: l in libs && l.name == s.name && (s.Put? ==> s.at in l.positions)
  }

  lemma {:induction false} StepsOfFileIff(libs: seq<LibraryRefs>, s: Step)
    ensures s in StepsOfFile(libs) <==> Demands(libs, s)
  {
    if libs != [] {
      StepsOfFileIff(libs[1..], s);
      PutsIff(libs[0].name, libs[0].positions, s);
      assert libs == [libs[0]] + libs[1..];
    }
  }

  lemma {:induction false} SomeFileDemands(refs: LinkRefs, s: Step)
    ensures s in Steps(refs) <==> exists f :: f in refs && Demands(f, s)
  {
    if refs != [] {
      SomeFileDemands(refs[1..], s);
      StepsOfFileIff(refs[0], s);
      assert refs == [refs[0]] + refs[1..];
      hide StepsOfFile, Demands;
    }
  }

  /** Every library referenced is looked up, every placeholder listed is filled, and nothing else is done. */
  lemma StepsIff(refs: LinkRefs, s: Step)
    ensures s in Steps(refs) <==> if s.Put? then Listed(refs, s.name, s.at) else Referenced(refs, s.name)
  {
    SomeFileDemands(refs, s);
    hide Steps;
    if s.Put? && Listed(refs, s.name, s.at) {
      var f, l :| f in refs && l in f && l.name == s.name && s.at in l.positions;
      assert Demands(f, s);
    }
    if !s.Put? && Referenced(refs, s.name) {
      var f, l :| f in refs && l in f && l.name == s.name;
      assert Demands(f, s);
    }
  }

  ghost predicate Spot(at: Position, i: nat) {
    at.start * 2 <= i < at.start * 2 + 40
  }

  /** One character of linked code: the address digit of the library listed there, or what stood there. */
  ghost predicate LinkedChar(hex: string, refs: LinkRefs, deployed: map<string, AddressText>, r: string, i: nat)
    requires i < |hex| == |r|
  {
    && (forall name, at :: Listed(refs, name, at) && Spot(at, i) ==>
          name in deployed && r[i] == AddressDigit(deployed[name], i - at.start * 2))
    && ((forall name, at :: Listed(refs, name, at) ==> !Spot(at, i)) ==> r[i] == hex[i])
  }

  ghost predicate LinkedCode(hex: string, refs: LinkRefs, deployed: map<string, AddressText>, r: string) {
    |r| == |hex| && forall i :: 0 <= i < |hex| ==> LinkedChar(hex, refs, deployed, r, i)
  }

  /** The error names what is missing or wrong. */
  ghost predicate ErrorIsReal(refs: LinkRefs, deployed: map<string, AddressText>, e: LinkError) {
    match e
    case NoSuchLibrary(name) => Referenced(refs, name) && name !in deployed
    case BadLength(length) => length != 20 && exists name, at :: Listed(refs, name, at) && at.length == length
  }

  /** Linking succeeds exactly if every library referenced is deployed and every placeholder listed takes 20
      bytes; placeholders within the code that do not overlap are then filled, and nothing else changes. */
  ghost predicate LinkOutcome(hex: string, refs: LinkRefs, deployed: map<string, AddressText>,
                              r: Result<string, LinkError>)
  {
    && (r.Success? <==>
          && (forall name :: Referenced(refs, name) ==> name in deployed)
          && forall name, at :: Listed(refs, name, at) ==> at.length == 20)
    && (r.Success? && AllInRange(|hex|, Steps(refs)) && AllApart(Steps(refs)) ==>
          LinkedCode(hex, refs, deployed, r.value))
    && (r.Failure? ==> ErrorIsReal(refs, deployed, r.error))
  }

  lemma LinkMeaning(hex: string, refs: LinkRefs, deployed: map<string, AddressText>)
    ensures LinkOutcome(hex, refs, deployed, Run(hex, deployed, Steps(refs)))
  {
    hide Run, Steps, AllApart, AllInRange;
    var r, steps := Run(hex, deployed, Steps(refs)), Steps(refs);
    RunSucceedsIff(hex, deployed, steps);
    AllSteps(refs);
    if r.Failure? {
      FirstError(hex, deployed, steps);
      ReferencedIfListed(refs);
    } else {
      ReferencedIfListed(refs);
      if AllInRange(|hex|, steps) && AllApart(steps) {
        LinkKeepsLength(hex, deployed, steps);
        forall i | 0 <= i < |hex| ensures LinkedChar(hex, refs, deployed, r.value, i) {
          LinkIsPointwise(hex, deployed, steps, i);
          CharsAgree(hex, refs, deployed, r.value, i);
        }
      }
    }
  }

  lemma AllSteps(refs: LinkRefs)
    ensures forall name, at :: Put(name, at) in Steps(refs) <==> Listed(refs, name, at)
    ensures forall name :: Look(name) in Steps(refs) <==> Referenced(refs, name)
    ensures forall s :: s in Steps(refs) ==> Referenced(refs, s.name) && (s.Put? ==> Listed(refs, s.name, s.at))
  {
    forall name, at ensures Put(name, at) in Steps(refs) <==> Listed(refs, name, at) {
      StepsIff(refs, Put(name, at));
    }
    forall name ensures Look(name) in Steps(refs) <==> Referenced(refs, name) {
      StepsIff(refs, Look(name));
    }
    ReferencedIfListed(refs);
    forall s | s in Steps(refs) ensures Referenced(refs, s.name) && (s.Put? ==> Listed(refs, s.name, s.at)) {
      StepsIff(refs, s);
    }
  }

  lemma ReferencedIfListed(refs: LinkRefs)
    ensures forall name, at :: Listed(refs, name, at) ==> Referenced(refs, name)
  { }

  lemma CharsAgree(hex: string, refs: LinkRefs, deployed: map<string, AddressText>, r: string, i: nat)
    requires i < |hex| == |r| && LinkedAt(hex, deployed, Steps(refs), r, i)
    ensures LinkedChar(hex, refs, deployed, r, i)
  {
    AllSteps(refs);
    hide Steps, Listed, AddressDigit;
    forall name, at | Listed(refs, name, at) && Spot(at, i)
      ensures name in deployed && r[i] == AddressDigit(deployed[name], i - at.start * 2)
    {
      assert Covers(Put(name, at), i);
    }
    if forall name, at :: Listed(refs, name, at) ==> !Spot(at, i) {
      forall s | s in Steps(refs) ensures !Covers(s, i) {
        assert s.Put? ==> Listed(refs, s.name, s.at) && !Spot(s.at, i);
      }
    }
  }

  lemma {:induction false} FirstError(hex: string, deployed: map<string, AddressText>, steps: seq<Step>)
    requires Run(hex, deployed, steps).Failure?
    ensures exists s :: s in steps && match Run(hex, deployed, steps).error
                                      case NoSuchLibrary(name) => s.name == name && name !in deployed
                                      case BadLength(length) => s.Put? && s.at.length == length && length != 20
    decreases |steps|
  {
    assert steps != [] && steps[0] in steps;
    var r := RunStep(hex, deployed, steps[0]);
    if r.Success? {
      FirstError(r.value, deployed, steps[1..]);
      assert forall s :: s in steps[1..] ==> s in steps;
    }
  }

  // ---------------------------------------------------------------- deploying in dependency order

  datatype Library = Library(name: string, code: string, refs: LinkRefs)

  /** `depsOf`: the libraries the code has placeholders for. */
  function DepsOf(refs: LinkRefs): set<string> {
    set f, l | f in refs && l in f :: l.name
  }

  lemma DepsIff(refs: LinkRefs, d: string)
    ensures d in DepsOf(refs) <==> Referenced(refs, d)
  { }

  datatype DeployError =
    | UnresolvedDependency(names: seq<string>)
    | LibraryLink(name: string, error: LinkError)
    | LibraryReverted(name: string)
    | ContractLink(error: LinkError)
    | ContractReverted

  /** The EVM: what the `n`-th deployment of the run yields for some code; `None` is a revert. */
  type Evm = (string, nat) -> Option<AddressText>

  /** The libraries at `order` can be deployed in that order: each is behind all it references. */
  ghost predicate Ready(libs: seq<Library>, order: seq<nat>, n: nat) {
    n < |order| ==>
      && order[n] < |libs|
      && forall d :: d in DepsOf(libs[order[n]].refs) ==> d in NamesAt(libs, order[..n])
  }

  ghost function NamesAt(libs: seq<Library>, order: seq<nat>): set<string> {
    set i | i in order && i < |libs| :: libs[i].name
  }

  ghost predicate DeployOrder(libs: seq<Library>, order: seq<nat>) {
    Distinct(order) && forall n :: Ready(libs, order, n)
  }

  /** An order that deploys every library once. */
  ghost predicate CompleteOrder(libs: seq<Library>, order: seq<nat>) {
    DeployOrder(libs, order) && forall i :: 0 <= i < |libs| ==> i in order
  }

  ghost predicate Deployable(libs: seq<Library>) {
    exists order :: CompleteOrder(libs, order)
  }

  /** A complete order always offers a next library: one not yet deployed whose references all are. */
  lemma SomeLibraryIsNext(libs: seq<Library>, done: seq<nat>, order: seq<nat>, i: nat)
    requires CompleteOrder(libs, order) && i < |libs| && i !in done
    ensures exists k :: 0 <= k < |libs| && k !in done && DepsOf(libs[k].refs) <= NamesAt(libs, done)
  {
    assert i in order;
    var n := FirstMissing(order, done, i);
    assert Ready(libs, order, n);
    assert NamesAt(libs, order[..n]) <= NamesAt(libs, done);
  }

  /** If every library not yet deployed waits for one not yet deployed, no complete order exists. */
  lemma StuckIsUndeployable(libs: seq<Library>, done: seq<nat>, i: nat)
    requires i < |libs| && i !in done
    requires forall k :: 0 <= k < |libs| && k !in done ==> !(DepsOf(libs[k].refs) <= NamesAt(libs, done))
    ensures !Deployable(libs)
  {
    if Deployable(libs) {
      var order :| CompleteOrder(libs, order);
      SomeLibraryIsNext(libs, done, order, i);
    }
  }

  lemma {:induction false} FirstMissing(order: seq<nat>, done: seq<nat>, i: nat) returns (n: nat)
    requires i in order && i !in done
    ensures n < |order| && order[n] !in done && forall j :: j in order[..n] ==> j in done
  {
    if order[0] !in done {
      n := 0;
    } else {
      n := FirstMissing(order[1..], done, i);
      n := n + 1;
      assert order[..n] == [order[0]] + order[1..][..n - 1];
    }
  }

  lemma DeployOrderSnoc(libs: seq<Library>, order: seq<nat>, i: nat)
    requires DeployOrder(libs, order) && i < |libs| && i !in order && DepsOf(libs[i].refs) <= NamesAt(libs, order)
    ensures DeployOrder(libs, order + [i])
    ensures NamesAt(libs, order + [i]) == NamesAt(libs, order) + {libs[i].name}
  {
    var o := order + [i];
    forall n: nat ensures Ready(libs, o, n) {
      assert Ready(libs, order, n);
      if n < |o| {
        assert o[..n] == order[..n];
        assert n == |order| ==> order[..n] == order;
      }
    }
  }

  /** The name -> address map once the first `n` libraries of the log are deployed. */
  ghost function Registry(libs: seq<Library>, log: seq<nat>, addrs: seq<AddressText>, n: nat): map<string, AddressText>
    requires n <= |log| == |addrs| && forall k :: 0 <= k < |log| ==> log[k] < |libs|
  {
    if n == 0 then map[] else Registry(libs, log, addrs, n - 1)[libs[log[n - 1]].name := addrs[n - 1]]
  }

  /** The `n`-th deployment: the library's code, linked against those deployed before it, ran and gave
      that address. */
  ghost predicate Deployed(libs: seq<Library>, evm: Evm, log: seq<nat>, addrs: seq<AddressText>, n: nat)
    requires |log| == |addrs| && forall k :: 0 <= k < |log| ==> log[k] < |libs|
  {
    n < |log| ==>
      var lib := libs[log[n]];
      var code := Run(Strip0x(lib.code), Registry(libs, log, addrs, n), Steps(lib.refs));
      code.Success? && evm(code.value, n) == Some(addrs[n])
  }

  /** The log of a run so far. */
  ghost predicate Logged(libs: seq<Library>, evm: Evm, log: seq<nat>, addrs: seq<AddressText>,
                         deployed: map<string, AddressText>)
  {
    && |log| == |addrs|
    && (forall k :: 0 <= k < |log| ==> log[k] < |libs|)
    && DeployOrder(libs, log)
    && (forall n :: Deployed(libs, evm, log, addrs, n))
    && deployed == Registry(libs, log, addrs, |log|)
    && deployed.Keys == NamesAt(libs, log)
  }

  lemma {:induction false} RegistryPrefix(libs: seq<Library>, log: seq<nat>, addrs: seq<AddressText>, i: nat,
                                          a: AddressText, n: nat)
    requires n <= |log| == |addrs| && i < |libs| && forall k :: 0 <= k < |log| ==> log[k] < |libs|
    ensures Registry(libs, log + [i], addrs + [a], n) == Registry(libs, log, addrs, n)
  {
    if n > 0 {
      RegistryPrefix(libs, log, addrs, i, a, n - 1);
    }
  }

  lemma RegistrySnoc(libs: seq<Library>, log: seq<nat>, addrs: seq<AddressText>, i: nat, a: AddressText)
    requires |log| == |addrs| && i < |libs| && forall k :: 0 <= k < |log| ==> log[k] < |libs|
    ensures Registry(libs, log + [i], addrs + [a], |log| + 1) == Registry(libs, log, addrs, |log|)[libs[i].name := a]
  {
    RegistryPrefix(libs, log, addrs, i, a, |log|);
  }

  lemma DeployedSnoc(libs: seq<Library>, evm: Evm, log: seq<nat>, addrs: seq<AddressText>, i: nat,
                     a: AddressText, n: nat)
    requires |log| == |addrs| && i < |libs| && forall k :: 0 <= k < |log| ==> log[k] < |libs|
    requires Deployed(libs, evm, log, addrs, n)
    requires n == |log| ==>
               var code := Run(Strip0x(libs[i].code), Registry(libs, log, addrs, n), Steps(libs[i].refs));
               code.Success? && evm(code.value, n) == Some(a)
    ensures Deployed(libs, evm, log + [i], addrs + [a], n)
  {
    hide Run, Steps;
    if n <= |log| {
      RegistryPrefix(libs, log, addrs, i, a, n);
    }
  }

  lemma LoggedSnoc(libs: seq<Library>, evm: Evm, log: seq<nat>, addrs: seq<AddressText>,
                   deployed: map<string, AddressText>, i: nat, code: string, a: AddressText)
    requires Logged(libs, evm, log, addrs, deployed) && i < |libs| && i !in log && DepsOf(libs[i].refs) <= deployed.Keys
    requires Run(Strip0x(libs[i].code), deployed, Steps(libs[i].refs)) == Success(code) && evm(code, |log|) == Some(a)
    ensures Logged(libs, evm, log + [i], addrs + [a], deployed[libs[i].name := a])
  {
    hide DeployOrder, NamesAt, DepsOf, Run, Steps, Deployed, Registry;
    DeployOrderSnoc(libs, log, i);
    RegistrySnoc(libs, log, addrs, i, a);
    forall n: nat ensures Deployed(libs, evm, log + [i], addrs + [a], n) {
      assert Deployed(libs, evm, log, addrs, n);
      DeployedSnoc(libs, evm, log, addrs, i, a, n);
    }
  }

  lemma {:induction false} StepNames(refs: LinkRefs)
    ensures forall s :: s in Steps(refs) ==> s.name in DepsOf(refs)
  {
    if refs != [] {
      StepNames(refs[1..]);
      FileStepNames(refs[0]);
      forall s | s in Steps(refs) ensures s.name in DepsOf(refs) {
        if s in StepsOfFile(refs[0]) {
          var l :| l in refs[0] && l.name == s.name;
          assert refs[0] in refs;
        }
      }
    }
  }

  lemma {:induction false} FileStepNames(libs: seq<LibraryRefs>)
    ensures forall s :: s in StepsOfFile(libs) ==> exists l :: l in libs && l.name == s.name
  {
    if libs != [] {
      FileStepNames(libs[1..]);
      PutNames(libs[0].name, libs[0].positions);
      assert libs[0] in libs;
    }
  }

  lemma {:induction false} PutNames(name: string, ps: seq<Position>)
    ensures forall s :: s in Puts(name, ps) ==> s.name == name
  {
    if ps != [] {
      PutNames(name, ps[1..]);
    }
  }

  /** Linking fails exactly if a library it looks up is not deployed or a placeholder is not 20 bytes long. */
  lemma {:induction false} RunSucceedsIff(hex: string, deployed: map<string, AddressText>, steps: seq<Step>)
    ensures Run(hex, deployed, steps).Success? <==>
            forall s :: s in steps ==> s.name in deployed && (s.Put? ==> s.at.length == 20)
    decreases |steps|
  {
    if steps != [] {
      assert forall s :: s in steps <==> s == steps[0] || s in steps[1..];
      var r := RunStep(hex, deployed, steps[0]);
      if r.Success? {
        RunSucceedsIff(r.value, deployed, steps[1..]);
      }
    }
  }

  /** Linking misses no library whose references are all deployed; only a bad length can stop it. */
  lemma {:induction false} ReadyLinks(hex: string, deployed: map<string, AddressText>, steps: seq<Step>)
    requires forall s :: s in steps ==> s.name in deployed
    ensures Run(hex, deployed, steps).Failure? ==> Run(hex, deployed, steps).error.BadLength?
    decreases |steps|
  {
    if steps != [] {
      assert steps == [steps[0]] + steps[1..];
      var r := RunStep(hex, deployed, steps[0]);
      if r.Success? {
        ReadyLinks(r.value, deployed, steps[1..]);
      }
    }
  }

  // ---------------------------------------------------------------- the order of the worklist

  ghost predicate Placeable(libs: seq<Library>, done: seq<nat>, i: nat) {
    i < |libs| && DepsOf(libs[i].refs) <= NamesAt(libs, done)
  }

  /** One pass through the list `todo`: the libraries then deployed, in order, and those left in the list. */
  ghost function Pass(libs: seq<Library>, todo: seq<nat>, done: seq<nat>): (r: (seq<nat>, seq<nat>))
    ensures |r.0| + |r.1| == |done| + |todo| && done <= r.0
    ensures |r.1| == |todo| ==> r == (done, todo)
  {
    if todo == [] then (done, [])
    else if Placeable(libs, done, todo[0]) then Pass(libs, todo[1..], done + [todo[0]])
    else
      var r := Pass(libs, todo[1..], done);
      assert todo == [todo[0]] + todo[1..];
      (r.0, [todo[0]] + r.1)
  }

  /** Passes until one deploys nothing. */
  ghost function Passes(libs: seq<Library>, todo: seq<nat>, done: seq<nat>): (r: (seq<nat>, seq<nat>))
    ensures done <= r.0
    decreases |todo|
  {
    var r := Pass(libs, todo, done);
    if |r.1| < |todo| then Passes(libs, r.1, r.0) else r
  }

  /** The order in which the build's libraries are deployed, and those that never are, as listed. */
  ghost function WorkOrder(libs: seq<Library>): (seq<nat>, seq<nat>) {
    Passes(libs, Indices(|libs|), [])
  }

  /** The list and the log, together the build's libraries. */
  ghost predicate Remaining(libs: seq<Library>, idx: seq<nat>, log: seq<nat>) {
    && Distinct(idx)
    && (forall k :: 0 <= k < |idx| ==> idx[k] < |libs| && idx[k] !in log)
    && (forall i :: 0 <= i < |libs| ==> i in idx || i in log)
  }

  lemma RemainingSplice(libs: seq<Library>, idx: seq<nat>, log: seq<nat>, i: nat)
    requires Remaining(libs, idx, log) && i < |idx|
    ensures Remaining(libs, idx[..i] + idx[i + 1..], log + [idx[i]])
  {
    var idx' := idx[..i] + idx[i + 1..];
    forall m | 0 <= m < |libs| ensures m in idx' || m in log + [idx[i]] {
      if m in idx && m != idx[i] {
        var k :| 0 <= k < |idx| && idx[k] == m;
        assert if k < i then idx'[k] == m else idx'[k - 1] == m;
      }
    }
  }

  lemma {:induction false} PassKeeps(libs: seq<Library>, skipped: seq<nat>, todo: seq<nat>, done: seq<nat>)
    requires Remaining(libs, skipped + todo, done) && DeployOrder(libs, done)
    ensures var r := Pass(libs, todo, done); Remaining(libs, skipped + r.1, r.0) && DeployOrder(libs, r.0)
    ensures |Pass(libs, todo, done).1| == |todo| ==> forall i :: i in todo ==> !Placeable(libs, done, i)
    decreases |todo|
  {
    hide DeployOrder, DepsOf, NamesAt;
    if todo == [] {
    } else if Placeable(libs, done, todo[0]) {
      var idx, k := skipped + todo, |skipped|;
      assert idx[k] == todo[0];
      RemainingSplice(libs, idx, done, k);
      assert idx[..k] + idx[k + 1..] == skipped + todo[1..];
      DeployOrderSnoc(libs, done, todo[0]);
      PassKeeps(libs, skipped, todo[1..], done + [todo[0]]);
    } else {
      assert skipped + todo == (skipped + [todo[0]]) + todo[1..];
      PassKeeps(libs, skipped + [todo[0]], todo[1..], done);
      var r := Pass(libs, todo[1..], done);
      assert skipped + ([todo[0]] + r.1) == (skipped + [todo[0]]) + r.1;
    }
  }

  lemma {:induction false} PassesKeep(libs: seq<Library>, todo: seq<nat>, done: seq<nat>)
    requires Remaining(libs, todo, done) && DeployOrder(libs, done)
    ensures var r := Passes(libs, todo, done); Remaining(libs, r.1, r.0) && DeployOrder(libs, r.0)
    ensures Passes(libs, todo, done).1 != [] ==> !Deployable(libs)
    decreases |todo|
  {
    hide DeployOrder, Deployable, DepsOf, NamesAt;
    PassKeeps(libs, [], todo, done);
    var r := Pass(libs, todo, done);
    assert [] + todo == todo && [] + r.1 == r.1;
    if |r.1| < |todo| {
      PassesKeep(libs, r.1, r.0);
    } else if todo != [] {
      StuckIsUndeployable(libs, done, todo[0]);
    }
  }

  /** The order found always has dependencies first. It is complete if and only if a complete order exists. */
  lemma WorkOrderMeaning(libs: seq<Library>)
    ensures DeployOrder(libs, WorkOrder(libs).0)
    ensures CompleteOrder(libs, WorkOrder(libs).0) <==> Deployable(libs)
  {
    NothingDeployed(libs);
    PassesKeep(libs, Indices(|libs|), []);
  }

  /** A list that has dependencies first already is deployed as it stands. */
  lemma OrderedListStands(libs: seq<Library>)
    requires CompleteOrder(libs, Indices(|libs|))
    ensures WorkOrder(libs) == (Indices(|libs|), [])
  {
    PassesTakeAll(libs, Indices(|libs|));
  }

  lemma PassesTakeAll(libs: seq<Library>, all: seq<nat>)
    requires DeployOrder(libs, all)
    ensures Passes(libs, all, []) == (all, [])
  {
    hide DeployOrder, Placeable;
    PassTakesAll(libs, all, 0);
    PassTakesAll(libs, all, |all|);
    assert all[0..] == all && all[..0] == [] && all[|all|..] == [] && all[..|all|] == all;
    assert Pass(libs, all, []) == (all, []) && Pass(libs, [], all) == (all, []);
    hide Pass;
  }

  lemma {:induction false} PassTakesAll(libs: seq<Library>, all: seq<nat>, n: nat)
    requires DeployOrder(libs, all) && n <= |all|
    ensures Pass(libs, all[n..], all[..n]) == (all, [])
    decreases |all| - n
  {
    hide NamesAt, DepsOf;
    if n < |all| {
      assert Ready(libs, all, n);
      assert all[n..][1..] == all[n + 1..] && all[..n] + [all[n]] == all[..n + 1];
      PassTakesAll(libs, all, n + 1);
    } else {
      assert all[..n] == all;
    }
  }

  /** In the pass that began with `todo` and `done`, the first `i` in the list `idx` are dealt with. */
  ghost predicate InPass(libs: seq<Library>, todo: seq<nat>, done: seq<nat>, idx: seq<nat>, log: seq<nat>, i: nat) {
    && i <= |idx| <= |todo|
    && var r := Pass(libs, idx[i..], log); Pass(libs, todo, done) == (r.0, idx[..i] + r.1)
  }

  lemma PassBegins(libs: seq<Library>, idx: seq<nat>, log: seq<nat>)
    ensures InPass(libs, idx, log, idx, log, 0)
  {
    assert idx[0..] == idx;
    assert idx[..0] + Pass(libs, idx, log).1 == Pass(libs, idx, log).1;
  }

  lemma PassPlaces(libs: seq<Library>, todo: seq<nat>, done: seq<nat>, idx: seq<nat>, log: seq<nat>, i: nat)
    requires InPass(libs, todo, done, idx, log, i) && i < |idx| && Placeable(libs, log, idx[i])
    ensures InPass(libs, todo, done, idx[..i] + idx[i + 1..], log + [idx[i]], i)
    ensures log + [idx[i]] <= Passes(libs, todo, done).0
  {
    hide Placeable;
    var idx' := idx[..i] + idx[i + 1..];
    assert idx[i..][1..] == idx[i + 1..] == idx'[i..] && idx'[..i] == idx[..i];
  }

  lemma PassSkips(libs: seq<Library>, todo: seq<nat>, done: seq<nat>, idx: seq<nat>, log: seq<nat>, i: nat)
    requires InPass(libs, todo, done, idx, log, i) && i < |idx| && !Placeable(libs, log, idx[i])
    ensures InPass(libs, todo, done, idx, log, i + 1)
  {
    hide Placeable;
    assert idx[i..][1..] == idx[i + 1..];
    var r := Pass(libs, idx[i + 1..], log);
    assert idx[..i] + ([idx[i]] + r.1) == idx[..i + 1] + r.1;
  }

  lemma PassEnds(libs: seq<Library>, todo: seq<nat>, done: seq<nat>, idx: seq<nat>, log: seq<nat>)
    requires InPass(libs, todo, done, idx, log, |idx|)
    ensures Passes(libs, todo, done) == Passes(libs, idx, log)
    ensures |idx| == |todo| ==> Passes(libs, todo, done) == (log, idx)
  {
    assert idx[|idx|..] == [] && idx[..|idx|] + [] == idx;
  }

  // ---------------------------------------------------------------- the worklist

  /** The pending list against the build's: `idx` gives each entry's place there. */
  ghost predicate PendingOk(libs: seq<Library>, pending: seq<Library>, idx: seq<nat>, log: seq<nat>) {
    && |idx| == |pending| && Remaining(libs, idx, log)
    && forall k :: 0 <= k < |idx| ==> pending[k] == libs[idx[k]]
  }

  lemma SpliceKeeps(libs: seq<Library>, pending: seq<Library>, idx: seq<nat>, log: seq<nat>, i: nat)
    requires PendingOk(libs, pending, idx, log) && i < |pending|
    ensures PendingOk(libs, pending[..i] + pending[i + 1..], idx[..i] + idx[i + 1..], log + [idx[i]])
  {
    RemainingSplice(libs, idx, log, i);
  }

  predicate IsReady(lib: Library, deployed: map<string, AddressText>) {
    DepsOf(lib.refs) <= deployed.Keys
  }

  /** Library `i` is next, and this is how its deployment fails. */
  ghost predicate LibraryFails(libs: seq<Library>, evm: Evm, log: seq<nat>, known: map<string, AddressText>,
                               i: nat, e: DeployError)
  {
    && i < |libs| && i !in log && IsReady(libs[i], known)
    && var linked := Run(Strip0x(libs[i].code), known, Steps(libs[i].refs));
       match linked
       case Failure(err) => err.BadLength? && e == LibraryLink(libs[i].name, err)
       case Success(hex) => evm(hex, |log|) == None && e == LibraryReverted(libs[i].name)
  }

  /** The names are those of the libraries not deployed. */
  ghost predicate NamesTheRest(libs: seq<Library>, log: seq<nat>, names: seq<string>) {
    && |names| + |log| == |libs|
    && forall nm :: nm in names <==> exists i: nat :: i < |libs| && i !in log && libs[i].name == nm
  }

  /** The names are those of the libraries at `idx`, in order. */
  predicate NamesInOrder(libs: seq<Library>, idx: seq<nat>, names: seq<string>) {
    |names| == |idx| && forall k :: 0 <= k < |idx| ==> idx[k] < |libs| && names[k] == libs[idx[k]].name
  }

  /** Why a run failed: nothing was ready although libraries remained, and then no complete order exists; or
      the next library in order failed; or all were deployed and the contract failed. */
  ghost predicate Explained(libs: seq<Library>, code: string, refs: LinkRefs, evm: Evm, log: seq<nat>,
                            known: map<string, AddressText>, e: DeployError) {
    var (order, rest) := WorkOrder(libs);
    match e
    case UnresolvedDependency(names) =>
      && log == order && names != [] && !Deployable(libs)
      && NamesInOrder(libs, rest, names) && NamesTheRest(libs, log, names)
    case LibraryLink(_, _) => log < order && LibraryFails(libs, evm, log, known, order[|log|], e)
    case LibraryReverted(_) => log < order && LibraryFails(libs, evm, log, known, order[|log|], e)
    case ContractLink(err) =>
      log == order && CompleteOrder(libs, log) && Run(Strip0x(code), known, Steps(refs)) == Failure(err)
    case ContractReverted =>
      log == order && CompleteOrder(libs, log) &&
      var linked := Run(Strip0x(code), known, Steps(refs));
      linked.Success? && evm(linked.value, |libs|) == None
  }

  function Names(pending: seq<Library>): (names: seq<string>)
    ensures |names| == |pending|
    ensures forall k :: 0 <= k < |pending| ==> names[k] == pending[k].name
  {
    if pending == [] then [] else [pending[0].name] + Names(pending[1..])
  }

  lemma RestIsNamed(libs: seq<Library>, pending: seq<Library>, idx: seq<nat>, log: seq<nat>)
    requires PendingOk(libs, pending, idx, log) && Distinct(log) && forall k :: 0 <= k < |log| ==> log[k] < |libs|
    ensures NamesTheRest(libs, log, Names(pending)) && NamesInOrder(libs, idx, Names(pending))
  {
    PendingCount(libs, pending, idx, log);
    var names := Names(pending);
    forall nm ensures nm in names <==> exists i: nat :: i < |libs| && i !in log && libs[i].name == nm {
      if nm in names {
        var k :| 0 <= k < |names| && names[k] == nm;
        assert idx[k] < |libs| && idx[k] !in log && libs[idx[k]].name == nm;
      }
      if i: nat :| i < |libs| && i !in log && libs[i].name == nm {
        var k :| 0 <= k < |idx| && idx[k] == i;
        assert names[k] == nm;
      }
    }
  }

  /** `deployLinked`. Libraries are deployed one by one in the work order, so each behind all it references;
      the run reports an unresolved dependency exactly when no complete order exists, unless a library's own
      deployment failed first. `log` lists the libraries deployed, by index, `addrs` their addresses, and
      `known` is the map from names to addresses at the end. */
  method DeployLinked(libs: seq<Library>, code: string, refs: LinkRefs, evm: Evm)
    returns (r: Result<(AddressText, map<string, AddressText>), DeployError>,
             ghost log: seq<nat>, ghost addrs: seq<AddressText>, ghost known: map<string, AddressText>)
    ensures r.Failure? && r.error.UnresolvedDependency? ==> !Deployable(libs)
    ensures r.Failure? && r.error.LibraryLink? ==> r.error.error.BadLength?
    ensures r.Success? ==>
              var linked := Run(Strip0x(code), r.value.1, Steps(refs));
              linked.Success? && evm(linked.value, |libs|) == Some(r.value.0)
    ensures r.Success? ==> log == WorkOrder(libs).0 && CompleteOrder(libs, log) && r.value.1 == known
    ensures r.Failure? ==> Explained(libs, code, refs, evm, log, known, r.error)
    ensures Logged(libs, evm, log, addrs, known)
  {
    hide Logged, PendingOk, Run, Steps, DeployOrder, DepsOf, NamesAt, NamesTheRest, NamesInOrder, Names;
    hide Deployable, CompleteOrder, Passes, InPass, LinkOutcome;
    var deployed: map<string, AddressText> := map[];
    var pending := libs;
    ghost var idx := Indices(|libs|);
    log, addrs := [], [];
    NothingLogged(libs, evm);
    while |pending| > 0
      invariant Logged(libs, evm, log, addrs, deployed) && PendingOk(libs, pending, idx, log)
      invariant Passes(libs, idx, log) == WorkOrder(libs)
      decreases |pending|
    {
      var before := |pending|;
      var i: nat := 0;
      ghost var todo, done := idx, log;
      PendingSize(libs, pending, idx, log);
      PassBegins(libs, idx, log);
      while i < |pending|
        invariant Logged(libs, evm, log, addrs, deployed) && PendingOk(libs, pending, idx, log)
        invariant i <= |pending| <= before && InPass(libs, todo, done, idx, log, i)
        invariant |pending| == before ==> forall j :: 0 <= j < i ==> !IsReady(pending[j], deployed)
        decreases |pending| - i
      {
        var lib := pending[i];
        LoggedFacts(libs, evm, log, addrs, deployed);
        PendingFacts(libs, pending, idx, log, i);
        if IsReady(lib, deployed) {
          PassPlaces(libs, todo, done, idx, log, i);
          StepNames(lib.refs);
          ReadyLinks(Strip0x(lib.code), deployed, Steps(lib.refs));
          var linked := Link(lib.code, lib.refs, deployed);
          if linked.Failure? {
            assert LibraryFails(libs, evm, log, deployed, idx[i], LibraryLink(lib.name, linked.error));
            return Failure(LibraryLink(lib.name, linked.error)), log, addrs, deployed;
          }
          var a := evm(linked.value, |libs| - |pending|);
          if a.None? {
            assert LibraryFails(libs, evm, log, deployed, idx[i], LibraryReverted(lib.name));
            return Failure(LibraryReverted(lib.name)), log, addrs, deployed;
          }
          LoggedSnoc(libs, evm, log, addrs, deployed, idx[i], linked.value, a.value);
          SpliceKeeps(libs, pending, idx, log, i);
          deployed := deployed[lib.name := a.value];
          pending := pending[..i] + pending[i + 1..];
          log, addrs, idx := log + [idx[i]], addrs + [a.value], idx[..i] + idx[i + 1..];
        } else {
          PassSkips(libs, todo, done, idx, log, i);
          i := i + 1;
        }
      }
      PendingSize(libs, pending, idx, log);
      PassEnds(libs, todo, done, idx, log);
      if |pending| == before {
        LoggedFacts(libs, evm, log, addrs, deployed);
        StuckPass(libs, pending, idx, log, deployed);
        RestIsNamed(libs, pending, idx, log);
        return Failure(UnresolvedDependency(Names(pending))), log, addrs, deployed;
      }
    }
    LoggedFacts(libs, evm, log, addrs, deployed);
    NonePending(libs, pending, idx, log);
    var linked := Link(code, refs, deployed);
    if linked.Failure? {
      return Failure(ContractLink(linked.error)), log, addrs, deployed;
    }
    var a := evm(linked.value, |libs|);
    if a.None? {
      return Failure(ContractReverted), log, addrs, deployed;
    }
    return Success((a.value, deployed)), log, addrs, deployed;
  }

  function Indices(n: nat): (s: seq<nat>)
    ensures |s| == n && forall k :: 0 <= k < n ==> s[k] == k
  {
    if n == 0 then [] else Indices(n - 1) + [n - 1]
  }

  lemma NothingDeployed(libs: seq<Library>)
    ensures Remaining(libs, Indices(|libs|), []) && DeployOrder(libs, [])
  {
    forall n: nat ensures Ready(libs, [], n) { }
    var idx := Indices(|libs|);
    forall i: nat | i < |libs| ensures i in idx {
      assert idx[i] == i;
    }
  }

  lemma NothingLogged(libs: seq<Library>, evm: Evm)
    ensures Logged(libs, evm, [], [], map[]) && PendingOk(libs, libs, Indices(|libs|), [])
  {
    NothingDeployed(libs);
  }

  lemma PendingSize(libs: seq<Library>, pending: seq<Library>, idx: seq<nat>, log: seq<nat>)
    requires PendingOk(libs, pending, idx, log)
    ensures |idx| == |pending|
  { }

  lemma LoggedFacts(libs: seq<Library>, evm: Evm, log: seq<nat>, addrs: seq<AddressText>,
                    deployed: map<string, AddressText>)
    requires Logged(libs, evm, log, addrs, deployed)
    ensures |log| == |addrs| && DeployOrder(libs, log) && Distinct(log) && deployed.Keys == NamesAt(libs, log)
    ensures forall k :: 0 <= k < |log| ==> log[k] < |libs|
  { }

  lemma PendingFacts(libs: seq<Library>, pending: seq<Library>, idx: seq<nat>, log: seq<nat>, i: nat)
    requires PendingOk(libs, pending, idx, log) && i < |pending|
    requires Distinct(log) && forall k :: 0 <= k < |log| ==> log[k] < |libs|
    ensures |idx| == |pending| && idx[i] < |libs| && pending[i] == libs[idx[i]] && idx[i] !in log
    ensures |pending| + |log| == |libs|
  {
    PendingCount(libs, pending, idx, log);
  }

  lemma NonePending(libs: seq<Library>, pending: seq<Library>, idx: seq<nat>, log: seq<nat>)
    requires PendingOk(libs, pending, idx, log) && pending == [] && DeployOrder(libs, log)
    requires Distinct(log) && forall k :: 0 <= k < |log| ==> log[k] < |libs|
    ensures CompleteOrder(libs, log) && |log| == |libs| && Passes(libs, idx, log).0 == log
  {
    PendingCount(libs, pending, idx, log);
  }

  /** Every library is either pending or deployed. */
  lemma PendingCount(libs: seq<Library>, pending: seq<Library>, idx: seq<nat>, log: seq<nat>)
    requires PendingOk(libs, pending, idx, log) && Distinct(log) && forall k :: 0 <= k < |log| ==> log[k] < |libs|
    ensures |pending| + |log| == |libs|
  {
    var both := idx + log;
    assert Distinct(both);
    PermutationLength(both, |libs|);
  }

  /** Distinct numbers that are exactly those below `n` are `n` many. */
  lemma {:induction false} PermutationLength(s: seq<nat>, n: nat)
    requires Distinct(s) && (forall k :: 0 <= k < |s| ==> s[k] < n) && (forall i :: 0 <= i < n ==> i in s)
    ensures |s| == n
  {
    if n == 0 {
      assert s == [];
    } else {
      assert n - 1 in s;
      var k :| 0 <= k < |s| && s[k] == n - 1;
      var s' := s[..k] + s[k + 1..];
      forall i | 0 <= i < n - 1 ensures i in s' {
        assert i in s;
        var j :| 0 <= j < |s| && s[j] == i;
        assert if j < k then s'[j] == i else s'[j - 1] == i;
      }
      PermutationLength(s', n - 1);
    }
  }

  lemma StuckPass(libs: seq<Library>, pending: seq<Library>, idx: seq<nat>, log: seq<nat>,
                  deployed: map<string, AddressText>)
    requires PendingOk(libs, pending, idx, log) && pending != [] && deployed.Keys == NamesAt(libs, log)
    requires forall j :: 0 <= j < |pending| ==> !IsReady(pending[j], deployed)
    ensures !Deployable(libs)
  {
    assert idx[0] !in log;
    forall k | 0 <= k < |libs| && k !in log ensures !(DepsOf(libs[k].refs) <= NamesAt(libs, log)) {
      var j :| 0 <= j < |idx| && idx[j] == k;
      assert !IsReady(pending[j], deployed);
    }
    StuckIsUndeployable(libs, log, idx[0]);
  }
}
