/** The two-level Yul cache of `src/solc.ts`, shared by several processes: a per-process memory map and a
    directory of files written by temp-and-rename. It is modelled as a state machine whose steps are
    the source's file-system operations, with failures and crashes between any two of them. */
module YulCache {
  import opened Wrappers

  // ---------------------------------------------------------------- requests and keys

  datatype Request = Request(yul: string, contractName: string, evmVersion: string)
  datatype SolcResult = SolcResult(creationBytecode: string, runtimeBytecode: string, yul: string,
                                   creationLinkReferences: string, runtimeLinkReferences: string)

  type Key = string
  type Pid = nat

  const CACHE_VERSION := "1"

  /** What the key's hash is taken of. */
  function Preimage(version: string, r: Request): string {
    CACHE_VERSION + (['\0'] + (version + (['\0'] + (r.evmVersion + (['\0'] + (r.contractName + (['\0'] + r.yul)))))))
  }

  predicate NulFree(s: string) {
    '\0' !in s
  }

  predicate Clean(version: string, r: Request) {
    NulFree(version) && NulFree(r.evmVersion) && NulFree(r.contractName)
  }

  lemma {:induction false} SplitAtNul(a: string, b: string, r: string, q: string)
    requires NulFree(a) && NulFree(b) && a + (['\0'] + r) == b + (['\0'] + q)
    ensures a == b && r == q
  {
    var s := a + (['\0'] + r);
    assert a == "" ==> s == ['\0'] + r;
    assert b == "" ==> s == ['\0'] + q;
    assert a != "" ==> s[0] == a[0] && a[0] in a;
    assert b != "" ==> s[0] == b[0] && b[0] in b;
    if a == "" {
      assert s[1..] == r && s[1..] == q;
    } else {
      assert s == [a[0]] + (a[1..] + (['\0'] + r)) && s == [b[0]] + (b[1..] + (['\0'] + q));
      assert s[1..] == a[1..] + (['\0'] + r) && s[1..] == b[1..] + (['\0'] + q);
      SplitAtNul(a[1..], b[1..], r, q);
    }
  }

  /** Without NUL in the version, the EVM name and the contract name, the preimage determines them and
      the Yul text, which may contain anything. */
  lemma PreimageInjective(v: string, r: Request, w: string, q: Request)
    requires Clean(v, r) && Clean(w, q) && Preimage(v, r) == Preimage(w, q)
    ensures v == w && r == q
  {
    var rest3, qest3 := r.contractName + (['\0'] + r.yul), q.contractName + (['\0'] + q.yul);
    var rest2, qest2 := r.evmVersion + (['\0'] + rest3), q.evmVersion + (['\0'] + qest3);
    var rest1, qest1 := v + (['\0'] + rest2), w + (['\0'] + qest2);
    SplitAtNul(CACHE_VERSION, CACHE_VERSION, rest1, qest1);
    SplitAtNul(v, w, rest2, qest2);
    SplitAtNul(r.evmVersion, q.evmVersion, rest3, qest3);
    SplitAtNul(r.contractName, q.contractName, r.yul, q.yul);
  }

  /** The parts before and behind the first NUL. */
  function SplitFirst(s: string): (parts: (string, string))
    requires '\0' in s
    ensures NulFree(parts.0) && s == parts.0 + (['\0'] + parts.1)
  {
    if s[0] == '\0' then ("", s[1..])
    else
      var (a, b) := SplitFirst(s[1..]);
      assert s == [s[0]] + (a + (['\0'] + b));
      ([s[0]] + a, b)
  }

  function CountNuls(s: string): nat {
    if s == "" then 0 else (if s[0] == '\0' then 1 else 0) + CountNuls(s[1..])
  }

  lemma {:induction false} CountConcat(a: string, b: string)
    ensures CountNuls(a + b) == CountNuls(a) + CountNuls(b)
    ensures CountNuls(a) == 0 <==> NulFree(a)
  {
    if a == "" {
      assert a + b == b;
    } else {
      CountConcat(a[1..], b);
      assert (a + b)[0] == a[0] && (a + b)[1..] == a[1..] + b;
      assert a == [a[0]] + a[1..];
    }
  }

  /** Splitting off the part before the first NUL leaves one NUL fewer. */
  lemma SplitCounts(s: string)
    requires CountNuls(s) > 0
    ensures '\0' in s && CountNuls(SplitFirst(s).1) == CountNuls(s) - 1
  {
    CountConcat(s, "");
    var (a, b) := SplitFirst(s);
    CountConcat(a, ['\0'] + b);
    assert (['\0'] + b)[1..] == b;
  }

  /** The request without NUL in its names that has the same preimage: each name is what stands before the
      next NUL, and the rest is the Yul text. */
  lemma CleanTwin(v: string, r: Request) returns (w: string, q: Request)
    ensures Clean(w, q) && Preimage(w, q) == Preimage(v, r)
    ensures NulFree(v) ==> w == v
  {
    var rest2 := r.contractName + (['\0'] + r.yul);
    var rest1 := r.evmVersion + (['\0'] + rest2);
    var all := v + (['\0'] + rest1);
    CountConcat(v, ['\0'] + rest1);
    CountConcat(r.evmVersion, ['\0'] + rest2);
    CountConcat(r.contractName, ['\0'] + r.yul);
    assert (['\0'] + rest1)[1..] == rest1 && (['\0'] + rest2)[1..] == rest2 && (['\0'] + r.yul)[1..] == r.yul;
    SplitCounts(all);
    var (version, tail1) := SplitFirst(all);
    SplitCounts(tail1);
    var (evm, tail2) := SplitFirst(tail1);
    SplitCounts(tail2);
    var (name, yul) := SplitFirst(tail2);
    w, q := version, Request(yul, name, evm);
    if NulFree(v) {
      SplitAtNul(v, version, rest1, tail1);
    }
  }

  /** The names hold no NUL if and only if no other request with NUL-free names has the same preimage, be it
      of any solc version or of the same one. */
  lemma CleanIffUnambiguous(v: string, r: Request)
    ensures Clean(v, r) <==> forall w, q :: Clean(w, q) && Preimage(w, q) == Preimage(v, r) ==> w == v && q == r
    ensures NulFree(v) ==>
              (Clean(v, r) <==> forall q :: Clean(v, q) && Preimage(v, q) == Preimage(v, r) ==> q == r)
  {
    if Clean(v, r) {
      forall w, q | Clean(w, q) && Preimage(w, q) == Preimage(v, r) ensures w == v && q == r {
        PreimageInjective(w, q, v, r);
      }
    }
    var w, q := CleanTwin(v, r);
  }

  /** Two such requests: with a NUL in a name they share a key. */
  lemma NulCollides(version: string)
    ensures Request("y", "c", "a\0b") != Request("y", "b\0c", "a")
    ensures Preimage(version, Request("y", "c", "a\0b")) == Preimage(version, Request("y", "b\0c", "a"))
  {
    var a, b := "a\0b" + (['\0'] + ("c" + (['\0'] + "y"))), "a" + (['\0'] + ("b\0c" + (['\0'] + "y")));
    assert a == b;
  }

  // ---------------------------------------------------------------- the world around the cache

  /** The pieces the cache is built on: a hash, the pure backend of each solc version, and the JSON
      text of a result. */
  datatype World = World(
    hash: string -> Key,
    backend: (string, Request) -> Result<SolcResult, string>,
    stringify: SolcResult -> string,
    parse: string -> Option<SolcResult>)
  {
    function KeyOf(version: string, r: Request): Key {
      hash(Preimage(version, r))
    }

    /** No hash collisions, JSON reads back what it wrote, and does not parse an object cut short. */
    ghost predicate Sound() {
      && (forall a, b :: hash(a) == hash(b) ==> a == b)
      && (forall r :: parse(stringify(r)) == Some(r))
      && (forall r, n :: 0 <= n < |stringify(r)| ==> parse(stringify(r)[..n]) == None)
    }

    /** Nothing that a reader may see of the text parses. */
    ghost predicate Unreadable(text: string) {
      forall n :: 0 <= n <= |text| ==> parse(text[..n]) == None
    }

    lemma KeyInjective(v: string, r: Request, w: string, q: Request)
      requires Sound() && Clean(v, r) && Clean(w, q) && KeyOf(v, r) == KeyOf(w, q)
      ensures v == w && r == q
    {
      PreimageInjective(v, r, w, q);
    }
  }

  // ---------------------------------------------------------------- states

  datatype Pc =
    | Idle
    | Reading(r: Request)                      // memory missed
    | Compiling(r: Request)                    // disk missed
    | Writing(r: Request, res: SolcResult)     // compiled and kept in memory
    | Renaming(r: Request, res: SolcResult)    // temp file complete
    | Done(r: Request, outcome: Result<SolcResult, string>)

  /** One process: its solc version, its memory cache, and where its call stands. */
  datatype Process = Process(version: string, mem: map<Key, SolcResult>, pc: Pc)

  datatype State = State(procs: map<Pid, Process>, disk: map<Key, string>, temp: map<(Key, Pid), string>)

  ghost predicate Init(s: State) {
    && s.disk == map[] && s.temp == map[]
    && forall p :: p in s.procs ==> s.procs[p].mem == map[] && s.procs[p].pc == Idle
  }

  datatype Step =
    | Call(p: Pid, r: Request, cached: bool)
    | Read(p: Pid, n: nat)              // sees the first n characters of the file: all, or a torn read
    | ReadFails(p: Pid)                 // no file or an I/O error
    | Compile(p: Pid)
    | WriteTemp(p: Pid)
    | WriteFails(p: Pid, torn: string)  // the temp file is left with any text
    | Rename(p: Pid)
    | RenameFails(p: Pid)
    | Return(p: Pid)
    | Crash(p: Pid, version: string)    // the process is gone; its pid may come back with another solc
    | Unlink(k: Key)                    // someone clears a cache file
    | Damage(k: Key, text: string)      // a file is left cut short or with other text that cannot be read

  /** One step of one process. Pids of live processes are distinct, as map keys. */
  ghost predicate Next(w: World, s: State, s': State, step: Step) {
    match step
    case Unlink(k) => s' == s.(disk := s.disk - {k})
    case Damage(k, text) => w.Unreadable(text) && s' == s.(disk := s.disk[k := text])
    case Call(p, r, cached) =>
      && p in s.procs && s.procs[p].pc == Idle && Clean(s.procs[p].version, r)
      && var pr := s.procs[p];
         var key := w.KeyOf(pr.version, r);
         var pc := if !cached then Done(r, w.backend(pr.version, r))
                   else if key in pr.mem then Done(r, Success(pr.mem[key]))
                   else Reading(r);
         s' == s.(procs := s.procs[p := pr.(pc := pc)])
    case Read(p, n) =>
      && p in s.procs && s.procs[p].pc.Reading?
      && var pr := s.procs[p];
         var key := w.KeyOf(pr.version, pr.pc.r);
         && key in s.disk && n <= |s.disk[key]|
         && var pr' := match w.parse(s.disk[key][..n])
              case None => pr.(pc := Compiling(pr.pc.r))
              case Some(res) => pr.(mem := pr.mem[key := res], pc := Done(pr.pc.r, Success(res)));
            s' == s.(procs := s.procs[p := pr'])
    case ReadFails(p) =>
      && p in s.procs && s.procs[p].pc.Reading?
      && s' == s.(procs := s.procs[p := s.procs[p].(pc := Compiling(s.procs[p].pc.r))])
    case Compile(p) =>
      && p in s.procs && s.procs[p].pc.Compiling?
      && var pr := s.procs[p];
         var r := pr.pc.r;
         var out := w.backend(pr.version, r);
         if out.Failure? then s' == s.(procs := s.procs[p := pr.(pc := Done(r, out))])
         else s' == s.(procs := s.procs[p := pr.(mem := pr.mem[w.KeyOf(pr.version, r) := out.value],
                                                 pc := Writing(r, out.value))])
    case WriteTemp(p) =>
      && p in s.procs && s.procs[p].pc.Writing?
      && var Process(version, mem, Writing(r, res)) := s.procs[p];
         s' == s.(procs := s.procs[p := Process(version, mem, Renaming(r, res))],
                  temp := s.temp[(w.KeyOf(version, r), p) := w.stringify(res)])
    case WriteFails(p, torn) =>
      && p in s.procs && s.procs[p].pc.Writing?
      && var Process(version, mem, Writing(r, res)) := s.procs[p];
         s' == s.(procs := s.procs[p := Process(version, mem, Done(r, Success(res)))],
                  temp := s.temp[(w.KeyOf(version, r), p) := torn])
    case Rename(p) =>
      && p in s.procs && s.procs[p].pc.Renaming?
      && var Process(version, mem, Renaming(r, res)) := s.procs[p];
         var key := w.KeyOf(version, r);
         && (key, p) in s.temp
         && s' == State(s.procs[p := Process(version, mem, Done(r, Success(res)))],
                        s.disk[key := s.temp[(key, p)]], s.temp - {(key, p)})
    case RenameFails(p) =>
      && p in s.procs && s.procs[p].pc.Renaming?
      && var Process(version, mem, Renaming(r, res)) := s.procs[p];
         s' == s.(procs := s.procs[p := Process(version, mem, Done(r, Success(res)))])
    case Return(p) =>
      && p in s.procs && s.procs[p].pc.Done?
      && s' == s.(procs := s.procs[p := s.procs[p].(pc := Idle)])
    case Crash(p, version) =>
      && p in s.procs
      && s' == s.(procs := s.procs[p := Process(version, map[], Idle)])
  }

  // ---------------------------------------------------------------- what every step keeps

  /** `res` is the backend's result for every request with this key. */
  ghost predicate Genuine(w: World, k: Key, res: SolcResult) {
    exists v, r :: Clean(v, r) && w.KeyOf(v, r) == k && w.backend(v, r) == Success(res)
  }

  /** Whatever a reader sees of a file, all or a part, does not parse or parses to a genuine result. */
  ghost predicate FileOk(w: World, k: Key, text: string) {
    forall n :: 0 <= n <= |text| ==> SeenOk(w, k, text[..n])
  }

  ghost predicate SeenOk(w: World, k: Key, seen: string) {
    w.parse(seen).Some? ==> Genuine(w, k, w.parse(seen).value)
  }

  /** The complete text of a genuine result is such a file, and so is every text of which nothing parses. */
  lemma WrittenFileOk(w: World, k: Key, res: SolcResult)
    requires w.Sound() && Genuine(w, k, res)
    ensures FileOk(w, k, w.stringify(res))
  {
    var text := w.stringify(res);
    forall n | 0 <= n <= |text| ensures SeenOk(w, k, text[..n]) {
      if n == |text| {
        assert text[..n] == text;
      }
    }
  }

  /** A text cut short is one of which nothing parses. */
  lemma CutShortIsUnreadable(w: World, res: SolcResult, m: nat)
    requires w.Sound() && m < |w.stringify(res)|
    ensures w.Unreadable(w.stringify(res)[..m])
  {
    var text := w.stringify(res)[..m];
    forall n | 0 <= n <= |text| ensures w.parse(text[..n]) == None {
      assert text[..n] == w.stringify(res)[..n];
    }
  }

  ghost predicate PcOk(w: World, s: State, p: Pid)
    requires p in s.procs
  {
    var Process(version, mem, pc) := s.procs[p];
    && (!pc.Idle? ==> Clean(version, pc.r))
    && match pc
       case Writing(r, res) => w.backend(version, r) == Success(res)
       case Renaming(r, res) =>
         && w.backend(version, r) == Success(res)
         && (w.KeyOf(version, r), p) in s.temp && s.temp[(w.KeyOf(version, r), p)] == w.stringify(res)
       case Done(r, outcome) => outcome == w.backend(version, r)
       case _ => true
  }

  ghost predicate MemOk(w: World, mem: map<Key, SolcResult>) {
    forall k :: k in mem ==> Genuine(w, k, mem[k])
  }

  ghost predicate DiskOk(w: World, disk: map<Key, string>) {
    forall k :: k in disk ==> FileOk(w, k, disk[k])
  }

  ghost predicate Inv(w: World, s: State) {
    && DiskOk(w, s.disk)
    && forall p :: p in s.procs ==> MemOk(w, s.procs[p].mem) && PcOk(w, s, p)
  }

  /** A genuine result is the backend's answer to whoever asks with that key. */
  lemma GenuineAnswers(w: World, v: string, r: Request, res: SolcResult)
    requires w.Sound() && Clean(v, r) && Genuine(w, w.KeyOf(v, r), res)
    ensures w.backend(v, r) == Success(res)
  {
    var v', r' :| Clean(v', r') && w.KeyOf(v', r') == w.KeyOf(v, r) && w.backend(v', r') == Success(res);
    w.KeyInjective(v, r, v', r');
  }

  ghost predicate ReadsRight(w: World, v: string, r: Request, text: string) {
    forall n :: 0 <= n <= |text| && w.parse(text[..n]).Some? ==> w.backend(v, r) == Success(w.parse(text[..n]).value)
  }

  /** A file is safe exactly if every reader with its key, however torn the read, gets the backend's answer
      or none. */
  lemma FileOkIff(w: World, v: string, r: Request, text: string)
    requires w.Sound() && Clean(v, r)
    ensures FileOk(w, w.KeyOf(v, r), text) <==> ReadsRight(w, v, r, text)
  {
    var k := w.KeyOf(v, r);
    forall n | 0 <= n <= |text|
      ensures SeenOk(w, k, text[..n]) <==>
              (w.parse(text[..n]).Some? ==> w.backend(v, r) == Success(w.parse(text[..n]).value))
    {
      if w.parse(text[..n]).Some? && SeenOk(w, k, text[..n]) {
        GenuineAnswers(w, v, r, w.parse(text[..n]).value);
      }
    }
  }

  lemma CallKeeps(w: World, s: State, s': State, p: Pid, r: Request, cached: bool)
    requires w.Sound() && Inv(w, s) && Next(w, s, s', Call(p, r, cached))
    ensures PcOk(w, s', p)
  {
    var pr := s.procs[p];
    var key := w.KeyOf(pr.version, r);
    if cached && key in pr.mem {
      GenuineAnswers(w, pr.version, r, pr.mem[key]);
    }
  }

  lemma ReadKeeps(w: World, s: State, s': State, p: Pid, n: nat)
    requires w.Sound() && Inv(w, s) && Next(w, s, s', Read(p, n))
    ensures PcOk(w, s', p) && MemOk(w, s'.procs[p].mem)
  {
    var pr := s.procs[p];
    assert PcOk(w, s, p);
    var key := w.KeyOf(pr.version, pr.pc.r);
    var seen := s.disk[key][..n];
    assert FileOk(w, key, s.disk[key]) && SeenOk(w, key, seen);
    if w.parse(seen).Some? {
      GenuineAnswers(w, pr.version, pr.pc.r, w.parse(seen).value);
    }
  }

  ghost predicate AnswersRight(w: World, s: State, p: Pid) {
    p in s.procs && (s.procs[p].pc.Done? ==> s.procs[p].pc.outcome == w.backend(s.procs[p].version, s.procs[p].pc.r))
  }

  /** No weaker condition on files would do: a process about to read is answered rightly whatever part of the
      file it sees if and only if the file is safe. */
  lemma ReadAnswersRightIff(w: World, s: State, p: Pid)
    requires w.Sound() && p in s.procs && s.procs[p].pc.Reading? && Clean(s.procs[p].version, s.procs[p].pc.r)
    requires w.KeyOf(s.procs[p].version, s.procs[p].pc.r) in s.disk
    ensures var key := w.KeyOf(s.procs[p].version, s.procs[p].pc.r);
            FileOk(w, key, s.disk[key]) <==> forall n, s' :: Next(w, s, s', Read(p, n)) ==> AnswersRight(w, s', p)
  {
    var pr := s.procs[p];
    var r := pr.pc.r;
    var key := w.KeyOf(pr.version, r);
    var text := s.disk[key];
    FileOkIff(w, pr.version, r, text);
    if forall n, s' :: Next(w, s, s', Read(p, n)) ==> AnswersRight(w, s', p) {
      forall n | 0 <= n <= |text| && w.parse(text[..n]).Some?
        ensures w.backend(pr.version, r) == Success(w.parse(text[..n]).value)
      {
        var res := w.parse(text[..n]).value;
        var s' := s.(procs := s.procs[p := pr.(mem := pr.mem[key := res], pc := Done(r, Success(res)))]);
        assert Next(w, s, s', Read(p, n));
        assert AnswersRight(w, s', p);
      }
    }
  }

  lemma CompileKeeps(w: World, s: State, s': State, p: Pid)
    requires w.Sound() && Inv(w, s) && Next(w, s, s', Compile(p))
    ensures PcOk(w, s', p) && MemOk(w, s'.procs[p].mem)
  {
    var pr := s.procs[p];
    assert PcOk(w, s, p);
    var out := w.backend(pr.version, pr.pc.r);
    if out.Success? {
      assert Genuine(w, w.KeyOf(pr.version, pr.pc.r), out.value);
    }
  }

  lemma RenameKeeps(w: World, s: State, s': State, p: Pid)
    requires w.Sound() && Inv(w, s) && Next(w, s, s', Rename(p))
    ensures PcOk(w, s', p) && DiskOk(w, s'.disk)
  {
    var Process(version, mem, Renaming(r, res)) := s.procs[p];
    assert PcOk(w, s, p);
    assert Genuine(w, w.KeyOf(version, r), res);
    WrittenFileOk(w, w.KeyOf(version, r), res);
  }

  lemma DamageKeeps(w: World, s: State, s': State, k: Key, text: string)
    requires Inv(w, s) && Next(w, s, s', Damage(k, text))
    ensures DiskOk(w, s'.disk)
  {
    assert FileOk(w, k, text);
  }

  /** The process a step belongs to. */
  function Actor(step: Step): Option<Pid> {
    match step
    case Unlink(_) => None
    case Call(p, _, _) => Some(p)
    case Damage(_, _) => None
    case Read(p, _) => Some(p)
    case ReadFails(p) => Some(p)
    case Compile(p) => Some(p)
    case WriteTemp(p) => Some(p)
    case WriteFails(p, _) => Some(p)
    case Rename(p) => Some(p)
    case RenameFails(p) => Some(p)
    case Return(p) => Some(p)
    case Crash(p, _) => Some(p)
  }

  /** A step touches no other process, and no temp file of another process. */
  lemma OthersUntouched(w: World, s: State, s': State, step: Step, q: Pid)
    requires Next(w, s, s', step) && Actor(step) != Some(q) && q in s.procs
    ensures q in s'.procs && s'.procs[q] == s.procs[q]
    ensures forall k :: (k, q) in s.temp ==> (k, q) in s'.temp && s'.temp[(k, q)] == s.temp[(k, q)]
  { }

  /** The remaining steps store nothing that others can see. */
  lemma QuietKeeps(w: World, s: State, s': State, step: Step, p: Pid)
    requires Inv(w, s) && Next(w, s, s', step) && Actor(step) == Some(p)
    requires !step.Call? && !step.Read? && !step.Compile? && !step.Rename?
    ensures PcOk(w, s', p) && MemOk(w, s'.procs[p].mem) && s'.disk == s.disk
  {
    assert PcOk(w, s, p) && MemOk(w, s.procs[p].mem);
  }

  lemma ActorExists(w: World, s: State, s': State, step: Step, p: Pid)
    requires Next(w, s, s', step) && Actor(step) == Some(p)
    ensures s'.procs.Keys == s.procs.Keys && p in s.procs
    ensures !step.Rename? ==> s'.disk == s.disk
    ensures !step.Read? && !step.Compile? && !step.Crash? ==> s'.procs[p].mem == s.procs[p].mem
  { }

  lemma ActorKeeps(w: World, s: State, s': State, step: Step, p: Pid)
    requires w.Sound() && Inv(w, s) && Next(w, s, s', step) && Actor(step) == Some(p)
    ensures s'.procs.Keys == s.procs.Keys && p in s.procs
    ensures PcOk(w, s', p) && MemOk(w, s'.procs[p].mem) && DiskOk(w, s'.disk)
  {
    hide Next, PcOk, MemOk, DiskOk;
    ActorExists(w, s, s', step, p);
    match step {
      case Call(_, r, cached) => CallKeeps(w, s, s', p, r, cached);
      case Read(_, n) => ReadKeeps(w, s, s', p, n);
      case Compile(_) => CompileKeeps(w, s, s', p);
      case Rename(_) => RenameKeeps(w, s, s', p);
      case _ => QuietKeeps(w, s, s', step, p);
    }
  }

  /** Every step keeps the invariant, whoever takes it. */
  lemma StepKeeps(w: World, s: State, s': State, step: Step)
    requires w.Sound() && Inv(w, s) && Next(w, s, s', step)
    ensures Inv(w, s')
  {
    if step.Damage? {
      DamageKeeps(w, s, s', step.k, step.text);
    } else if Actor(step).Some? {
      ActorKeeps(w, s, s', step, Actor(step).value);
    }
    forall q | q in s'.procs ensures MemOk(w, s'.procs[q].mem) && PcOk(w, s', q) {
      if Actor(step) != Some(q) {
        assert MemOk(w, s.procs[q].mem) && PcOk(w, s, q);
        OthersUntouched(w, s, s', step, q);
      }
    }
  }

  // ---------------------------------------------------------------- runs

  ghost predicate IsRun(w: World, states: seq<State>, steps: seq<Step>) {
    && |states| == |steps| + 1
    && Init(states[0])
    && forall i :: 0 <= i < |steps| ==> Next(w, states[i], states[i + 1], steps[i])
  }

  lemma {:induction false} RunKeeps(w: World, states: seq<State>, steps: seq<Step>, n: nat)
    requires w.Sound() && IsRun(w, states, steps) && n < |states|
    ensures Inv(w, states[n])
  {
    if n > 0 {
      RunKeeps(w, states, steps, n - 1);
      StepKeeps(w, states[n - 1], states[n], steps[n - 1]);
    }
  }

  /** Over every interleaving, with torn reads, failed writes, damaged files and crashes anywhere, a call
      that returns gives exactly what the uncached backend of that process would. */
  lemma CacheIsTransparent(w: World, states: seq<State>, steps: seq<Step>, n: nat, p: Pid)
    requires w.Sound() && IsRun(w, states, steps) && n < |states|
    requires p in states[n].procs && states[n].procs[p].pc.Done?
    ensures var Process(version, _, Done(r, outcome)) := states[n].procs[p]; outcome == w.backend(version, r)
  {
    RunKeeps(w, states, steps, n);
    assert PcOk(w, states[n], p);
  }

  /** Only successes are ever stored: whatever of a reachable cache file parses, and whatever a memory entry
      holds, is the backend's successful answer to every request with that key. */
  lemma OnlySuccessesStored(w: World, states: seq<State>, steps: seq<Step>, n: nat, v: string, r: Request)
    requires w.Sound() && IsRun(w, states, steps) && n < |states| && Clean(v, r)
    ensures var k := w.KeyOf(v, r);
            && (k in states[n].disk ==> ReadsRight(w, v, r, states[n].disk[k]))
            && (forall p :: p in states[n].procs && k in states[n].procs[p].mem ==>
                              w.backend(v, r) == Success(states[n].procs[p].mem[k]))
  {
    RunKeeps(w, states, steps, n);
    var k := w.KeyOf(v, r);
    if k in states[n].disk {
      FileOkIff(w, v, r, states[n].disk[k]);
    }
    forall p | p in states[n].procs && k in states[n].procs[p].mem
      ensures w.backend(v, r) == Success(states[n].procs[p].mem[k])
    {
      GenuineAnswers(w, v, r, states[n].procs[p].mem[k]);
    }
  }

  // ---------------------------------------------------------------- one call as the source writes it

  /** How much a call's read sees, if it does not throw, which of its other file operations throw, and what a
      failed write leaves in the temp file. */
  datatype Faults = Faults(seen: Option<nat>, mkdir: bool, write: bool, rename: bool, torn: string)

  /** The first `n` characters of a file, or all of a shorter one. */
  function Seen(text: string, n: nat): string {
    if n < |text| then text[..n] else text
  }

  /** The module-level state of one process and the directory it shares. The methods ask of the
      directory only what `StepKeeps` shows every process to preserve, so others may act between
      any two calls. */
  class Backend {
    const w: World
    const version: string
    const pid: Pid
    var yulMemCache: map<Key, SolcResult>
    var yulCacheDirReady: bool
    var files: map<Key, string>
    var temps: map<(Key, Pid), string>
    ghost var compilations: nat  // how often the backend was asked

    constructor (w: World, version: string, pid: Pid, files: map<Key, string>, temps: map<(Key, Pid), string>)
      requires DiskOk(w, files)
      ensures this.w == w && this.version == version && this.pid == pid && Valid()
      ensures this.files == files && this.temps == temps && yulMemCache == map[] && !yulCacheDirReady
    {
      this.w, this.version, this.pid := w, version, pid;
      this.files, this.temps := files, temps;
      yulMemCache, yulCacheDirReady := map[], false;
    }

    ghost predicate Valid()
      reads this
    {
      MemOk(w, yulMemCache) && DiskOk(w, files)
    }

    /** The file is there, the read does not throw, and what it sees parses. */
    ghost predicate Readable(key: Key, seen: Option<nat>)
      reads this
    {
      seen.Some? && key in files && w.parse(Seen(files[key], seen.value)).Some?
    }

    /** A hit is a genuine result for the key, however much of the file was seen. */
    method ReadYulCache(key: Key, seen: Option<nat>) returns (r: Option<SolcResult>)
      requires Valid()
      ensures r.Some? ==> Genuine(w, key, r.value)
      ensures r.Some? <==> Readable(key, seen)
    {
      if seen.None? || key !in files {
        return None;
      }
      assert FileOk(w, key, files[key]);
      var text := Seen(files[key], seen.value);
      assert text == files[key][..|text|] && SeenOk(w, key, files[key][..|text|]);
      return w.parse(text);
    }

    /** A finished file appears only if nothing throws. */
    ghost predicate Writes(f: Faults)
      reads this
    {
      (yulCacheDirReady || !f.mkdir) && !f.write && !f.rename
    }

    /** Neither level of the cache answers. */
    ghost predicate Misses(key: Key, f: Faults)
      reads this
    {
      key !in yulMemCache && !Readable(key, f.seen)
    }

    method WriteYulCache(key: Key, res: SolcResult, f: Faults)
      modifies this`yulCacheDirReady, this`files, this`temps
      ensures files == if old(Writes(f)) then old(files)[key := w.stringify(res)] else old(files)
      ensures yulCacheDirReady == (old(yulCacheDirReady) || !f.mkdir)
      ensures forall slot :: slot != (key, pid) ==>
                (slot in temps <==> slot in old(temps)) && (slot in temps ==> temps[slot] == old(temps)[slot])
      ensures old(Writes(f)) ==> (key, pid) !in temps
      ensures w.Sound() && old(Writes(f)) ==> w.parse(files[key]) == Some(res)
    {
      if !yulCacheDirReady {
        if f.mkdir {
          return;
        }
        yulCacheDirReady := true;
      }
      if f.write {
        temps := temps[(key, pid) := f.torn];
        return;
      }
      temps := temps[(key, pid) := w.stringify(res)];
      if f.rename {
        return;
      }
      files := files[key := temps[(key, pid)]];
      temps := temps - {(key, pid)};
    }

    /** `compileYulUncached`: the backend of this process's solc. */
    method CompileYulUncached(r: Request) returns (out: Result<SolcResult, string>)
      modifies this`compilations
      ensures out == w.backend(version, r) && compilations == old(compilations) + 1
    {
      compilations := compilations + 1;
      return w.backend(version, r);
    }

    /** `compileYul`: with or without the cache, and whatever fails, the answer is the backend's, which is asked
        only if the cache is off or neither of its levels answers. */
    method CompileYul(r: Request, cached: bool, f: Faults) returns (out: Result<SolcResult, string>)
      requires w.Sound() && Valid() && Clean(version, r)
      modifies this`yulMemCache, this`yulCacheDirReady, this`files, this`temps, this`compilations
      ensures out == w.backend(version, r)
      ensures compilations ==
              old(compilations) + if !cached || old(Misses(w.KeyOf(version, r), f)) then 1 else 0
      ensures Valid()
      ensures yulMemCache == if cached && out.Success? then old(yulMemCache)[w.KeyOf(version, r) := out.value]
                             else old(yulMemCache)
      ensures var writes := cached && out.Success? && old(Misses(w.KeyOf(version, r), f));
              && (writes ==>
                    && yulCacheDirReady == (old(yulCacheDirReady) || !f.mkdir)
                    && files == if old(Writes(f)) then old(files)[w.KeyOf(version, r) := w.stringify(out.value)]
                                else old(files))
              && (!writes ==> unchanged(`files, `temps, `yulCacheDirReady))
    {
      if !cached {
        out := CompileYulUncached(r);
        return;
      }
      var key := w.KeyOf(version, r);
      if key in yulMemCache {
        GenuineAnswers(w, version, r, yulMemCache[key]);
        return Success(yulMemCache[key]);
      }
      var disk := ReadYulCache(key, f.seen);
      if disk.Some? {
        GenuineAnswers(w, version, r, disk.value);
        yulMemCache := yulMemCache[key := disk.value];
        return Success(disk.value);
      }
      out := CompileYulUncached(r);
      if out.Failure? {
        return;
      }
      assert Genuine(w, key, out.value);
      WrittenFileOk(w, key, out.value);
      yulMemCache := yulMemCache[key := out.value];
      WriteYulCache(key, out.value, f);
    }
  }
}
