/**
 * `main` and `encrypt_pdf`: for every (filename, password) pair of the
 * loaded mapping, in the mapping's order, find the PDF, encrypt it into the
 * output directory or in place, count the outcome, and turn the counts into
 * the process's exit status.
 *
 * The PDF library and the file system's write side are outcomes handed in
 * with the `World`: `encrypt` says whether saving an encrypted copy raised,
 * and why; `replace` whether `os.replace` succeeded. Both are told every
 * action the run has already performed, since the files they work on are
 * the ones those actions left behind: a PDF that an earlier entry encrypted
 * in place no longer opens without its password. The directory being
 * scanned (`listing`, `isFile`) is taken as fixed during the run.
 */
module BatchDriver {
  import opened Wrappers
  import opened Text
  import opened OrderedDict
  import opened MappingLoader
  import opened PathResolver

  /** Why saving an encrypted copy raised. */
  datatype FailureKind =
    | PasswordRequired   // the PDF is already encrypted and cannot be opened
    | EncryptError       // any other exception, including a failed replace

  /** One call of `encrypt_pdf`: read `input`, write `output` with the two passwords (AES-256, R=6). */
  datatype Request = Request(input: string, output: string, user: string, owner: string)

  /** What the batch does to the file system, in order. */
  datatype Action =
    | Encrypt(req: Request)
    | Replace(src: string, dst: string)

  /** The outcome of one mapping entry. */
  datatype EntryResult = Encrypted | Skipped | Failed(kind: FailureKind)

  /** The four counters printed at the end of the run. */
  datatype Counts = Counts(total: nat, ok: nat, skipped: nat, failed: nat)

  /** The command-line options (`--sheet`, `--outdir`, `--inplace`, `--owner`). */
  datatype Options = Options(sheet: Option<string>, outdir: string, inplace: bool, owner: Option<string>)

  /**
   * What the run sees of its surroundings. `encrypt` and `replace` are
   * given the actions performed before the call, in order.
   */
  datatype World = World(
    cwd: string,                                            // `os.getcwd()`
    listing: seq<string>,                                   // `os.listdir(cwd)`
    isFile: string -> bool,                                 // `os.path.isfile`
    encrypt: (seq<Action>, Request) -> Option<FailureKind>, // `None` when the encrypted copy was saved
    replace: (seq<Action>, string, string) -> bool)         // `os.replace(src, dst)` succeeded

  /** The owner password given to the PDF library: `--owner` when present, else the user password. */
  function OwnerPassword(owner: Option<string>, user: string): string {
    owner.GetOr(user)
  }

  /** The directory encrypted copies go to: `--outdir` relative to the working directory. */
  function OutputDir(world: World, opts: Options): string {
    Join(world.cwd, opts.outdir)
  }

  /** The suffix of the temporary file written next to the original in place mode. */
  const TempSuffix: string := ".tmp_encrypt"

  /** The `encrypt_pdf` call made for the resolved file `inPdf`. */
  function EncryptRequest(world: World, opts: Options, inPdf: string, password: string): Request {
    var output := if opts.inplace then inPdf + TempSuffix else Join(OutputDir(world, opts), Basename(inPdf));
    Request(inPdf, output, password, OwnerPassword(opts.owner, password))
  }

  /** What becomes of one mapping entry, after the run has performed `done`. */
  function EntryOutcome(world: World, opts: Options, done: seq<Action>, name: string, password: string): EntryResult {
    ResolvedOutcome(world, opts, done, ResolvedPath(world.cwd, world.listing, world.isFile, name), password)
  }

  /** What becomes of an entry once its file is resolved (or not found). */
  function ResolvedOutcome(world: World, opts: Options, done: seq<Action>, resolved: Option<string>, password: string): EntryResult {
    match resolved
    case None => Skipped
    case Some(inPdf) =>
      var req := EncryptRequest(world, opts, inPdf, password);
      match world.encrypt(done, req)
      case Some(kind) => Failed(kind)
      case None =>
        if opts.inplace && !world.replace(done + [Encrypt(req)], req.output, inPdf) then Failed(EncryptError) else Encrypted
  }

  /** What one mapping entry does to the file system, after the run has performed `done`. */
  function EntryActions(world: World, opts: Options, done: seq<Action>, name: string, password: string): seq<Action> {
    ResolvedActions(world, opts, done, ResolvedPath(world.cwd, world.listing, world.isFile, name), password)
  }

  /** What an entry does to the file system once its file is resolved (or not found). */
  function ResolvedActions(world: World, opts: Options, done: seq<Action>, resolved: Option<string>, password: string): seq<Action> {
    match resolved
    case None => []
    case Some(inPdf) =>
      var req := EncryptRequest(world, opts, inPdf, password);
      if opts.inplace && world.encrypt(done, req).None? then [Encrypt(req), Replace(req.output, inPdf)]
      else [Encrypt(req)]
  }

  /** `EntryOutcome` as a function of what was done before and of the entry. */
  function OutcomeOf(world: World, opts: Options): (seq<Action>, (string, string)) -> EntryResult {
    (done: seq<Action>, e: (string, string)) => EntryOutcome(world, opts, done, e.0, e.1)
  }

  /** `EntryActions` as a function of what was done before and of the entry. */
  function ActionsOf(world: World, opts: Options): (seq<Action>, (string, string)) -> seq<Action> {
    (done: seq<Action>, e: (string, string)) => EntryActions(world, opts, done, e.0, e.1)
  }

  /** The actions of a run over the entries in order, each entry acting after the ones before it. */
  function RunLog(act: (seq<Action>, (string, string)) -> seq<Action>, mapping: Dict<string, string>): seq<Action> {
    if mapping == [] then []
    else
      var n := |mapping| - 1;
      var done := RunLog(act, mapping[..n]);
      done + act(done, mapping[n])
  }

  /** The result of every entry of such a run, each on what the entries before it did. */
  function RunResults<R>(res: (seq<Action>, (string, string)) -> R, act: (seq<Action>, (string, string)) -> seq<Action>,
                         mapping: Dict<string, string>): (rs: seq<R>)
    ensures |rs| == |mapping|
  {
    if mapping == [] then []
    else
      var n := |mapping| - 1;
      RunResults(res, act, mapping[..n]) + [res(RunLog(act, mapping[..n]), mapping[n])]
  }

  /** Result `i` is entry `i`'s result on the actions of the entries before it. */
  lemma {:induction false} RunResultsAt<R>(res: (seq<Action>, (string, string)) -> R,
                                           act: (seq<Action>, (string, string)) -> seq<Action>,
                                           mapping: Dict<string, string>, i: nat)
    requires i < |mapping|
    ensures RunResults(res, act, mapping)[i] == res(RunLog(act, mapping[..i]), mapping[i])
  {
    var n := |mapping| - 1;
    if i < n {
      RunResultsAt(res, act, mapping[..n], i);
      assert mapping[..n][..i] == mapping[..i];
    }
  }

  /** The log of the first `i` entries is the start of the whole log: actions are only ever appended. */
  lemma {:induction false} RunLogPrefix(act: (seq<Action>, (string, string)) -> seq<Action>, mapping: Dict<string, string>, i: nat)
    requires i <= |mapping|
    ensures var prefix := RunLog(act, mapping[..i]);
      |prefix| <= |RunLog(act, mapping)| && prefix == RunLog(act, mapping)[..|prefix|]
  {
    if i < |mapping| {
      var n := |mapping| - 1;
      RunLogPrefix(act, mapping[..n], i);
      assert mapping[..n][..i] == mapping[..i];
    } else {
      assert mapping[..i] == mapping;
    }
  }

  /** Running one entry more appends its result and its actions. */
  lemma RunStep<R>(res: (seq<Action>, (string, string)) -> R, act: (seq<Action>, (string, string)) -> seq<Action>,
                   mapping: Dict<string, string>, i: nat)
    requires i < |mapping|
    ensures var done := RunLog(act, mapping[..i]);
      && RunResults(res, act, mapping[..i + 1]) == RunResults(res, act, mapping[..i]) + [res(done, mapping[i])]
      && RunLog(act, mapping[..i + 1]) == done + act(done, mapping[i])
  {
    assert mapping[..i + 1][..i] == mapping[..i];
  }

  /** A property of logs that holds of the empty log and survives every entry's actions holds of the whole run's log. */
  lemma {:induction false} RunLogKeeps(act: (seq<Action>, (string, string)) -> seq<Action>, mapping: Dict<string, string>,
                                       inv: seq<Action> -> bool)
    requires inv([])
    requires forall done, e :: inv(done) ==> inv(done + act(done, e))
    ensures inv(RunLog(act, mapping))
  {
    if mapping != [] {
      RunLogKeeps(act, mapping[..|mapping| - 1], inv);
    }
  }

  /** The outcome of every entry, in the mapping's order. */
  function Outcomes(world: World, opts: Options, mapping: Dict<string, string>): seq<EntryResult> {
    RunResults(OutcomeOf(world, opts), ActionsOf(world, opts), mapping)
  }

  /** Everything the batch does to the file system, entry after entry. */
  function BatchLog(world: World, opts: Options, mapping: Dict<string, string>): seq<Action> {
    RunLog(ActionsOf(world, opts), mapping)
  }

  /** The counters after one more outcome: the total and that outcome's counter go up by one. */
  function Counted(c: Counts, r: EntryResult): Counts {
    match r
    case Encrypted => Counts(c.total + 1, c.ok + 1, c.skipped, c.failed)
    case Skipped => Counts(c.total + 1, c.ok, c.skipped + 1, c.failed)
    case Failed(_) => Counts(c.total + 1, c.ok, c.skipped, c.failed + 1)
  }

  /**
   * The counters over a sequence of outcomes: every entry is counted once,
   * as encrypted, skipped or failed, and nothing failed exactly when no
   * outcome is a failure.
   */
  function Tally(rs: seq<EntryResult>): (c: Counts)
    ensures c.total == |rs| && c.ok + c.skipped + c.failed == c.total
    ensures c.failed == 0 <==> forall i :: 0 <= i < |rs| ==> !rs[i].Failed?
  {
    if rs == [] then Counts(0, 0, 0, 0)
    else
      var n := |rs| - 1;
      assert rs == rs[..n] + [rs[n]];
      Counted(Tally(rs[..n]), rs[n])
  }

  /** The exit status of `main`: 2 when no usable mapping was read, else 0 exactly when nothing failed. */
  function ExitCode(excelExists: bool, book: Option<Workbook>, world: World, opts: Options): int {
    if !excelExists then 2
    else match Loaded(book, opts.sheet)
      case Failure(_) => 2
      case Success(mapping) =>
        if mapping == [] then 2
        else if Tally(Outcomes(world, opts, mapping)).failed == 0 then 0
        else 1
  }

  /** How many of the outcomes are `r`. */
  function Occurrences(rs: seq<EntryResult>, r: EntryResult): nat {
    if rs == [] then 0
    else Occurrences(rs[..|rs| - 1], r) + (if rs[|rs| - 1] == r then 1 else 0)
  }

  /** `ok` counts the encrypted entries and `skipped` the entries whose file was not found. */
  lemma {:induction false} TallyCountsKinds(rs: seq<EntryResult>)
    ensures Tally(rs).ok == Occurrences(rs, Encrypted)
    ensures Tally(rs).skipped == Occurrences(rs, Skipped)
  {
    if rs != [] {
      TallyCountsKinds(rs[..|rs| - 1]);
    }
  }

  /** Tallying one more outcome is counting it on top of the earlier tally. */
  lemma TallyStep(rs: seq<EntryResult>, r: EntryResult)
    ensures Tally(rs + [r]) == Counted(Tally(rs), r)
  {
    assert (rs + [r])[..|rs|] == rs;
  }

  /** Processing entry `i` counts its outcome on top of the earlier ones and appends its actions to the log. */
  lemma BatchStep(world: World, opts: Options, mapping: Dict<string, string>, i: nat)
    requires i < |mapping|
    ensures var done := BatchLog(world, opts, mapping[..i]);
      && Tally(Outcomes(world, opts, mapping[..i + 1]))
         == Counted(Tally(Outcomes(world, opts, mapping[..i])), OutcomeOf(world, opts)(done, mapping[i]))
      && BatchLog(world, opts, mapping[..i + 1]) == done + ActionsOf(world, opts)(done, mapping[i])
  {
    var done := BatchLog(world, opts, mapping[..i]);
    RunStep(OutcomeOf(world, opts), ActionsOf(world, opts), mapping, i);
    TallyStep(Outcomes(world, opts, mapping[..i]), OutcomeOf(world, opts)(done, mapping[i]));
  }

  /**
   * The body of the loop of `main` for one entry: resolve its file (an
   * unresolved file is skipped), then encrypt it into the output directory,
   * or into a temporary file next to it that then replaces the original.
   * Either exception of `encrypt_pdf`, or a failed replace, is a failure.
   */
  method ProcessEntry(world: World, opts: Options, outdir: string, done: seq<Action>, entry: (string, string))
    returns (result: EntryResult, actions: seq<Action>)
    requires outdir == OutputDir(world, opts)
    ensures result == OutcomeOf(world, opts)(done, entry)
    ensures actions == ActionsOf(world, opts)(done, entry)
  {
    var (name, password) := entry;
    var inPdf := ResolvePdfPath(world.cwd, world.listing, world.isFile, name);
    result, actions := EncryptResolved(world, opts, outdir, done, inPdf, password);
  }

  /** The body of the loop once the entry's file is resolved: skip it, or encrypt it (and replace the original in place). */
  method EncryptResolved(world: World, opts: Options, outdir: string, done: seq<Action>, inPdf: Option<string>, password: string)
    returns (result: EntryResult, actions: seq<Action>)
    requires outdir == OutputDir(world, opts)
    ensures result == ResolvedOutcome(world, opts, done, inPdf, password)
    ensures actions == ResolvedActions(world, opts, done, inPdf, password)
  {
    if inPdf.None? {
      return Skipped, [];
    }
    var owner := OwnerPassword(opts.owner, password);
    if opts.inplace {
      var tmp := inPdf.value + TempSuffix;
      var req := Request(inPdf.value, tmp, password, owner);
      actions := [Encrypt(req)];
      var err := world.encrypt(done, req);
      if err.Some? {
        return Failed(err.value), actions;
      }
      var replaced := world.replace(done + actions, tmp, inPdf.value);
      actions := actions + [Replace(tmp, inPdf.value)];
      if !replaced {
        return Failed(EncryptError), actions;
      }
    } else {
      var req := Request(inPdf.value, Join(outdir, Basename(inPdf.value)), password, owner);
      actions := [Encrypt(req)];
      var err := world.encrypt(done, req);
      if err.Some? {
        return Failed(err.value), actions;
      }
    }
    result := Encrypted;
  }

  /**
   * The loop of `main`: every entry is counted in `total` and then in
   * exactly one of `ok`, `skipped` and `failed`; a failure never stops the
   * loop.
   */
  method RunBatch(world: World, opts: Options, mapping: Dict<string, string>) returns (counts: Counts, log: seq<Action>)
    ensures counts == Tally(Outcomes(world, opts, mapping))
    ensures log == BatchLog(world, opts, mapping)
  {
    var outdir := OutputDir(world, opts);
    counts := Counts(0, 0, 0, 0);
    log := [];
    ghost var results: seq<EntryResult> := [];
    assert mapping[..0] == [];
    for i := 0 to |mapping|
      invariant results == Outcomes(world, opts, mapping[..i])
      invariant log == BatchLog(world, opts, mapping[..i])
      invariant counts == Tally(results)
    {
      RunStep(OutcomeOf(world, opts), ActionsOf(world, opts), mapping, i);
      var result, actions := ProcessEntry(world, opts, outdir, log, mapping[i]);
      TallyStep(results, result);
      counts := Count(counts, result);
      log := log + actions;
      results := results + [result];
    }
    assert mapping[..|mapping|] == mapping;
  }

  /** One entry's counter updates: `total` always goes up, and so does the counter of its outcome. */
  method Count(c: Counts, result: EntryResult) returns (d: Counts)
    ensures d == Counted(c, result)
  {
    var total, ok, skipped, failed := c.total + 1, c.ok, c.skipped, c.failed;
    match result {
      case Encrypted => ok := ok + 1;
      case Skipped => skipped := skipped + 1;
      case Failed(_) => failed := failed + 1;
    }
    d := Counts(total, ok, skipped, failed);
  }

  /**
   * `main` after argument parsing: a missing spreadsheet, a failed load and
   * an empty mapping each end the run with status 2 before any file is
   * touched; otherwise the batch runs and the status is 0 when nothing
   * failed and 1 otherwise.
   */
  method RunTool(excelExists: bool, book: Option<Workbook>, world: World, opts: Options)
    returns (code: int, counts: Option<Counts>, log: seq<Action>)
    ensures code == ExitCode(excelExists, book, world, opts)
    ensures code == 2 <==> counts.None?
    ensures counts.None? ==> log == []
    ensures counts.Some? ==> && Loaded(book, opts.sheet).Success?
                             && counts.value == Tally(Outcomes(world, opts, Loaded(book, opts.sheet).value))
                             && log == BatchLog(world, opts, Loaded(book, opts.sheet).value)
  {
    if !excelExists {
      return 2, None, [];
    }
    var loaded := LoadMapping(book, opts.sheet);
    if loaded.Failure? {
      return 2, None, [];
    }
    var mapping := loaded.value;
    if |mapping| == 0 {
      return 2, None, [];
    }
    var c;
    c, log := RunBatch(world, opts, mapping);
    code := if c.failed == 0 then 0 else 1;
    counts := Some(c);
  }

  /**
   * The exit status: 2 exactly when the spreadsheet is missing, cannot be
   * loaded or yields no pair; otherwise 0 exactly when no entry failed, and
   * 1 exactly when some entry failed. Skipped entries never make it non-zero.
   */
  lemma ExitCodeMeaning(excelExists: bool, book: Option<Workbook>, world: World, opts: Options)
    ensures var code := ExitCode(excelExists, book, world, opts);
            var loaded := Loaded(book, opts.sheet);
      && (code == 2 <==> !excelExists || loaded.Failure? || loaded.value == [])
      && (code == 0 <==> && excelExists && loaded.Success? && loaded.value != []
                         && forall i :: 0 <= i < |loaded.value| ==> !Outcomes(world, opts, loaded.value)[i].Failed?)
      && (code == 1 <==> && excelExists && loaded.Success? && loaded.value != []
                         && exists i :: 0 <= i < |loaded.value| && Outcomes(world, opts, loaded.value)[i].Failed?)
  {
  }

  /**
   * Entry `i`'s outcome is that entry's outcome on the files as the entries
   * before it left them: the loop reaches every entry, and a failure before
   * it does not stop it.
   */
  lemma EveryEntryProcessed(world: World, opts: Options, mapping: Dict<string, string>, i: nat)
    requires i < |mapping|
    ensures Outcomes(world, opts, mapping)[i]
         == EntryOutcome(world, opts, BatchLog(world, opts, mapping[..i]), mapping[i].0, mapping[i].1)
  {
    RunResultsAt(OutcomeOf(world, opts), ActionsOf(world, opts), mapping, i);
  }

  /** An entry is skipped exactly when its file is not found, and then nothing is done to the file system. */
  lemma SkippedIffUnresolved(world: World, opts: Options, done: seq<Action>, name: string, password: string)
    ensures var resolved := ResolvedPath(world.cwd, world.listing, world.isFile, name);
      && (EntryOutcome(world, opts, done, name, password) == Skipped <==> resolved.None?)
      && (EntryActions(world, opts, done, name, password) == [] <==> resolved.None?)
  {
  }

  /**
   * An entry fails exactly when its file was found and encrypting it raised
   * (an already encrypted PDF or any other error), or, in place mode, when
   * replacing the original with the encrypted copy failed.
   */
  lemma FailedIff(world: World, opts: Options, done: seq<Action>, name: string, password: string)
    ensures var resolved := ResolvedPath(world.cwd, world.listing, world.isFile, name);
            var r := EntryOutcome(world, opts, done, name, password);
      && (r.Failed? <==>
            && resolved.Some?
            && var req := EncryptRequest(world, opts, resolved.value, password);
               || world.encrypt(done, req).Some?
               || (opts.inplace && !world.replace(done + [Encrypt(req)], req.output, resolved.value)))
      && (r == Failed(PasswordRequired) ==>
            world.encrypt(done, EncryptRequest(world, opts, resolved.value, password)) == Some(PasswordRequired))
  {
  }

  /**
   * Where the encrypted copy goes: in place mode writes a temporary file
   * next to the original, never the original itself; otherwise the copy
   * keeps the original's file name inside the output directory. The owner
   * password is `--owner` when given and the user password otherwise.
   */
  lemma RequestShape(world: World, opts: Options, inPdf: string, password: string)
    ensures var req := EncryptRequest(world, opts, inPdf, password);
      && req.input == inPdf && req.user == password
      && (opts.owner.None? ==> req.owner == password)
      && (opts.owner.Some? ==> req.owner == opts.owner.value)
      && (opts.inplace ==> req.output == inPdf + TempSuffix && req.output != inPdf)
      && (!opts.inplace ==> && Basename(req.output) == Basename(inPdf)
                            && req.output[..|OutputDir(world, opts)|] == OutputDir(world, opts)
                            && |req.output| <= |OutputDir(world, opts)| + 1 + |Basename(inPdf)|)
  {
    var base := Basename(inPdf);
    if base != [] {
      assert base[0] in base;
    }
    BasenameJoin(OutputDir(world, opts), base);
  }

  /** Every action of `log` satisfies `p`. */
  predicate AllActions(log: seq<Action>, p: Action -> bool) {
    forall k :: 0 <= k < |log| ==> p(log[k])
  }

  /** Two logs whose actions all satisfy `p` concatenate to one that does. */
  lemma AllActionsAppend(a: seq<Action>, b: seq<Action>, p: Action -> bool)
    requires AllActions(a, p) && AllActions(b, p)
    ensures AllActions(a + b, p)
  {
    forall k | 0 <= k < |a + b| ensures p((a + b)[k]) {
      if k < |a| { assert (a + b)[k] == a[k]; } else { assert (a + b)[k] == b[k - |a|]; }
    }
  }

  /**
   * An encryption as `main` issues it: the owner password is defaulted; in
   * place mode writes the temporary file next to the original; otherwise the
   * copy goes into the output directory under the original's file name.
   */
  predicate SoundRequest(world: World, opts: Options, a: Action) {
    a.Encrypt? ==>
      && a.req.owner == OwnerPassword(opts.owner, a.req.user)
      && (opts.inplace ==> a.req.output == a.req.input + TempSuffix)
      && (!opts.inplace ==> a.req.output == Join(OutputDir(world, opts), Basename(a.req.input)))
  }

  /** `SoundRequest` for the given world and options, as a property of actions. */
  function SoundFor(world: World, opts: Options): Action -> bool {
    a => SoundRequest(world, opts, a)
  }

  /** The actions of one entry are sound. */
  lemma EntryRequestsSound(world: World, opts: Options, done: seq<Action>, name: string, password: string)
    ensures AllActions(EntryActions(world, opts, done, name, password), SoundFor(world, opts))
  {
    ResolvedRequestsSound(world, opts, done, ResolvedPath(world.cwd, world.listing, world.isFile, name), password);
  }

  /** The actions issued for a resolved file are sound. */
  lemma ResolvedRequestsSound(world: World, opts: Options, done: seq<Action>, resolved: Option<string>, password: string)
    ensures AllActions(ResolvedActions(world, opts, done, resolved, password), SoundFor(world, opts))
  {
    if resolved.Some? {
      var req := EncryptRequest(world, opts, resolved.value, password);
      RequestShape(world, opts, resolved.value, password);
      assert SoundRequest(world, opts, Encrypt(req));
      var actions := ResolvedActions(world, opts, done, resolved, password);
      assert actions[0] == Encrypt(req) && forall k :: 1 <= k < |actions| ==> actions[k].Replace?;
    }
  }

  /** Every encryption of the batch uses the owner default and writes where `main` says it does. */
  lemma BatchRequestsSound(world: World, opts: Options, mapping: Dict<string, string>)
    ensures AllActions(BatchLog(world, opts, mapping), SoundFor(world, opts))
  {
    var p := SoundFor(world, opts);
    var act := ActionsOf(world, opts);
    forall done, e | AllActions(done, p) ensures AllActions(done + act(done, e), p) {
      EntryRequestsSound(world, opts, done, e.0, e.1);
      AllActionsAppend(done, act(done, e), p);
    }
    RunLogKeeps(act, mapping, log => AllActions(log, p));
  }

  /**
   * Every replace happens in place mode only, right after the encryption
   * that wrote its source succeeded on the files as the actions before it
   * left them, and moves that encryption's output over its input.
   */
  predicate ReplacesFollowEncrypts(world: World, opts: Options, log: seq<Action>) {
    forall k :: 0 <= k < |log| && log[k].Replace? ==>
      && opts.inplace
      && 0 < k
      && log[k - 1].Encrypt?
      && log[k - 1].req.output == log[k].src
      && log[k - 1].req.input == log[k].dst
      && world.encrypt(log[..k - 1], log[k - 1].req).None?
  }

  /** One entry's actions, appended to what the run did before, keep the replace discipline. */
  lemma EntryReplacesFollow(world: World, opts: Options, done: seq<Action>, name: string, password: string)
    requires ReplacesFollowEncrypts(world, opts, done)
    ensures ReplacesFollowEncrypts(world, opts, done + EntryActions(world, opts, done, name, password))
  {
    ResolvedReplacesFollow(world, opts, done, ResolvedPath(world.cwd, world.listing, world.isFile, name), password);
  }

  /** The actions issued for a resolved file: an encryption, then a replace only after it succeeded in place mode. */
  lemma ResolvedReplacesFollow(world: World, opts: Options, done: seq<Action>, resolved: Option<string>, password: string)
    requires ReplacesFollowEncrypts(world, opts, done)
    ensures ReplacesFollowEncrypts(world, opts, done + ResolvedActions(world, opts, done, resolved, password))
  {
    var log := done + ResolvedActions(world, opts, done, resolved, password);
    if resolved.Some? {
      var req := EncryptRequest(world, opts, resolved.value, password);
      forall k | 0 <= k < |log| && log[k].Replace?
        ensures && opts.inplace && 0 < k && log[k - 1].Encrypt?
                && log[k - 1].req.output == log[k].src && log[k - 1].req.input == log[k].dst
                && world.encrypt(log[..k - 1], log[k - 1].req).None?
      {
        if k < |done| {
          assert log[k] == done[k] && log[k - 1] == done[k - 1];
          assert log[..k - 1] == done[..k - 1];
        } else {
          assert k == |done| + 1 && log[k - 1] == Encrypt(req) && log[..k - 1] == done;
        }
      }
    } else {
      assert log == done;
    }
  }

  /** The whole batch's log keeps the replace discipline. */
  lemma BatchReplacesFollow(world: World, opts: Options, mapping: Dict<string, string>)
    ensures ReplacesFollowEncrypts(world, opts, BatchLog(world, opts, mapping))
  {
    var act := ActionsOf(world, opts);
    forall done, e | ReplacesFollowEncrypts(world, opts, done)
      ensures ReplacesFollowEncrypts(world, opts, done + act(done, e))
    {
      EntryReplacesFollow(world, opts, done, e.0, e.1);
    }
    RunLogKeeps(act, mapping, log => ReplacesFollowEncrypts(world, opts, log));
  }
}
