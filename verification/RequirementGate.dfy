/** The requirement map check (P21) of ci/audit_gate.py. Finding texts are reduced to a reason, and
    the repository to a file or a directory at each path. */
module RequirementGate {
  import opened Analyzer
  import opened AuditGate
  import opened Counting
  import opened Wrappers

  // ---------------------------------------------------------------- the map and its surroundings

  /** A requirement row. `residual` is already stripped, and `verified` is the ordinal of the
      `last_verified` date when that is a date. */
  datatype Row = Row(
    id: string, status: string, gate: string, gateKind: string, residual: string,
    artifacts: seq<string>, verified: Option<int>)

  datatype Kind = File | Directory

  /** What the check finds around it, and the ids of the rows that the risk register tracks, which
      the check never looks up. */
  datatype Env = Env(
    tree: map<string, Kind>, flags: set<string>, tracked: set<string>, today: int, warnDays: int, failDays: int)

  const REGISTER: string := "docs/RESIDUAL_RISK_REGISTER.md"

  /** What the path joined to the root leads to: the empty path and "." lead to the root. */
  function At(env: Env, path: string): Option<Kind> {
    if path == "" || path == "." then Some(Directory)
    else if path in env.tree then Some(env.tree[path])
    else None
  }

  predicate Exists(env: Env, path: string) {
    At(env, path).Some?
  }

  predicate IsBlank(c: char) {
    c == ' ' || ('\t' <= c <= '\r') || ('\U{1c}' <= c <= '\U{1f}')
  }

  /** The length of the word at the front of the text. */
  function WordEnd(s: string): (n: nat)
    ensures n <= |s|
  {
    if s == "" || IsBlank(s[0]) then 0 else 1 + WordEnd(s[1..])
  }

  predicate IsFlag(word: string) {
    |word| >= 2 && word[..2] == "--"
  }

  /** The first word of the text that starts with two dashes. */
  function FirstFlag(s: string): Option<string>
    decreases |s|
  {
    if s == "" then None
    else if IsBlank(s[0]) then FirstFlag(s[1..])
    else
      var n := WordEnd(s);
      if IsFlag(s[..n]) then Some(s[..n]) else FirstFlag(s[n..])
  }

  /** A word: a maximal run without blanks. */
  ghost predicate IsWord(s: string, i: nat, j: nat) {
    && i < j <= |s|
    && (forall k :: i <= k < j ==> !IsBlank(s[k]))
    && (i > 0 ==> IsBlank(s[i - 1]))
    && (j < |s| ==> IsBlank(s[j]))
  }

  /** A word that starts with two dashes. */
  ghost predicate FlagAt(s: string, i: nat, j: nat) {
    IsWord(s, i, j) && j - i >= 2 && s[i] == '-' && s[i + 1] == '-'
  }

  lemma BlanksInPlainTerms(c: char)
    ensures IsBlank(c) <==> c in " \t\n\U{0B}\U{0C}\r\U{1C}\U{1D}\U{1E}\U{1F}"
  {}

  lemma {:induction false} WordEndIsMaximal(s: string)
    ensures var n := WordEnd(s); (forall k :: 0 <= k < n ==> !IsBlank(s[k])) && (n < |s| ==> IsBlank(s[n]))
  {
    if s != "" && !IsBlank(s[0]) { WordEndIsMaximal(s[1..]); }
  }

  /** Dropping `n` characters that hold no word but at most one at the front shifts the others. */
  lemma FlagsShift(s: string, n: nat, i: nat, j: nat)
    requires 0 < n <= |s| && n <= i
    requires i > n || n == |s| || IsBlank(s[n]) || IsBlank(s[n - 1])
    ensures i <= j ==> (FlagAt(s, i, j) <==> FlagAt(s[n..], i - n, j - n))
  {
    if i <= j <= |s| {
      assert forall k :: n <= k < |s| ==> s[n..][k - n] == s[k];
      assert (forall k :: i <= k < j ==> !IsBlank(s[k])) <==> forall k :: i - n <= k < j - n ==> !IsBlank(s[n..][k])
      by {
        assert forall k :: i - n <= k < j - n ==> s[n..][k] == s[k + n];
      }
    }
  }

  /** A flag that starts within the first word is that word. */
  lemma EarlyFlag(s: string, n: nat, i: nat, j: nat)
    requires 0 < n <= |s| && FlagAt(s, i, j)
    requires if IsBlank(s[0]) then n == 1 else forall k :: 0 <= k < n ==> !IsBlank(s[k])
    requires n == |s| || IsBlank(s[n]) || IsBlank(s[0])
    requires IsBlank(s[0]) || !IsFlag(s[..n])
    ensures n <= i
  {
  }

  lemma FlagAtFront(s: string, n: nat)
    requires n <= |s| && IsFlag(s[..n]) && (n == |s| || IsBlank(s[n])) && forall k :: 0 <= k < n ==> !IsBlank(s[k])
    ensures FlagAt(s, 0, n)
  {
    assert s[..n][0] == '-' && s[..n][1] == '-';
  }

  lemma NoFlagInNothing()
    ensures forall a: nat, b: nat :: !FlagAt("", a, b)
  {}

  lemma FlagsLieWithin(s: string)
    ensures forall a: nat, b: nat :: FlagAt(s, a, b) ==> a < b <= |s|
  {}

  lemma {:induction false} FirstFlagFound(s: string) returns (i: nat, j: nat)
    ensures FirstFlag(s).None? ==> forall a: nat, b: nat :: !FlagAt(s, a, b)
    ensures FirstFlag(s).Some? ==>
              && FlagAt(s, i, j) && i <= j <= |s| && FirstFlag(s).value == s[i..j]
              && forall a: nat, b: nat :: FlagAt(s, a, b) ==> i <= a
    decreases |s|
  {
    hide FlagAt, IsFlag, IsBlank, WordEnd;
    i, j := 0, 0;
    NoFlagInNothing();
    if s != "" {
      var n := if IsBlank(s[0]) then 1 else WordEnd(s);
      WordEndIsMaximal(s);
      assert n > 0;
      if !IsBlank(s[0]) && IsFlag(s[..n]) {
        i, j := 0, n;
        FlagAtFront(s, n);
      } else {
        var x, y := FirstFlagFound(s[n..]);
        i, j := x + n, y + n;
        if FirstFlag(s).Some? {
          FlagsShift(s, n, i, j);
          assert s[n..][x..y] == s[i..j];
        }
        FlagsLieWithin(s);
        forall a: nat, b: nat | FlagAt(s, a, b) ensures FirstFlag(s).Some? && i <= a {
          EarlyFlag(s, n, a, b);
          FlagsShift(s, n, a, b);
          assert FlagAt(s[n..], a - n, b - n);
        }
      }
    }
  }

  /** The flag found is the first word that starts with two dashes; there is none exactly when no
      word does. */
  lemma FirstFlagExactly(s: string, w: string)
    ensures FirstFlag(s) == Some(w)
            <==> exists i: nat, j: nat ::
                   FlagAt(s, i, j) && s[i..j] == w && forall a: nat, b: nat :: FlagAt(s, a, b) ==> i <= a
    ensures FirstFlag(s) == None <==> forall i: nat, j: nat :: !FlagAt(s, i, j)
  {
    var x, y := FirstFlagFound(s);
    if i: nat, j: nat :|
         FlagAt(s, i, j) && s[i..j] == w && forall a: nat, b: nat :: FlagAt(s, a, b) ==> i <= a
    {
      assert i == x;
      assert j == y;
    }
  }

  ghost predicate Unbroken(w: string) {
    forall k :: 0 <= k < |w| ==> !IsBlank(w[k])
  }

  /** A command line with a flag behind its first word. */
  lemma FlagAfterAWord(w: string, f: string)
    requires (forall k :: 0 <= k < |w| ==> !IsBlank(w[k])) && forall k :: 0 <= k < |f| ==> !IsBlank(f[k])
    requires |f| >= 2 && f[0] == '-' && f[1] == '-'
    requires w != "" && !(|w| >= 2 && w[0] == '-' && w[1] == '-')
    ensures FirstFlag(w + " " + f) == Some(f)
  {
    assert Unbroken(w) && Unbroken(f);
    hide FirstFlag, FlagAt, Unbroken;
    var s, n := w + " " + f, |w| + 1;
    FirstFlagExactly(s, f);
    assert s[n..|s|] == f;
    LastWordIsAFlag(s, w, f);
    FirstWordIsNoFlag(s, w, f);
  }

  lemma LastWordIsAFlag(s: string, w: string, f: string)
    requires Unbroken(f) && |f| >= 2 && f[0] == '-' && f[1] == '-' && s == w + " " + f
    ensures FlagAt(s, |w| + 1, |s|)
  {
    assert forall k :: |w| + 1 <= k < |s| ==> s[k] == f[k - |w| - 1];
    assert s[|w|] == ' ';
  }

  lemma FirstWordIsNoFlag(s: string, w: string, f: string)
    requires Unbroken(w) && w != "" && !(|w| >= 2 && w[0] == '-' && w[1] == '-') && s == w + " " + f
    ensures forall i: nat, j: nat :: FlagAt(s, i, j) ==> |w| + 1 <= i
  {
    assert s[|w|] == ' ' && s[..|w|] == w;
    assert forall k :: 0 <= k < |w| ==> s[k] == w[k];
    forall i: nat, j: nat | FlagAt(s, i, j) ensures |w| + 1 <= i {
      if i <= |w| {
        assert false;
      }
    }
  }

  // ---------------------------------------------------------------- what the check asks

  predicate ValidStatus(row: Row) {
    row.status in ["gated", "presence_only", "documented_residual"]
  }

  ghost predicate ArtifactsBound(row: Row, env: Env) {
    row.artifacts != [] && forall a <- row.artifacts :: Exists(env, a)
  }

  /** What the check asks of the row's gate: a gated row names a registered flag or an existing
      path, a presence row only says so, and a residual has a text while the register exists. */
  predicate GateBound(row: Row, env: Env) {
    if row.status == "gated" then
      || (row.gateKind == "audit_gate" && FirstFlag(row.gate).Some? && FirstFlag(row.gate).value in env.flags)
      || (row.gateKind == "script" && Exists(env, row.gate))
    else if row.status == "presence_only" then row.gateKind == "presence"
    else row.residual != "" && Exists(env, REGISTER)
  }

  predicate FreshEnough(row: Row, env: Env) {
    row.verified.Some? && env.today - row.verified.value <= env.failDays
  }

  /** The row meets all that the check asks of it. */
  ghost predicate Bound(row: Row, env: Env) {
    ValidStatus(row) && ArtifactsBound(row, env) && GateBound(row, env) && FreshEnough(row, env)
  }

  /** The number of independent ways the row fails to bind; an invalid status hides the others. */
  ghost function Defects(row: Row, env: Env): nat {
    if !ValidStatus(row) then 1
    else Bit(!ArtifactsBound(row, env)) + Bit(!GateBound(row, env)) + Bit(!FreshEnough(row, env))
  }

  /** A presence row that does not say why no gate applies. */
  predicate LacksNote(row: Row) {
    row.status == "presence_only" && row.gateKind == "presence" && row.residual == ""
  }

  predicate GrowingOld(row: Row, env: Env) {
    row.verified.Some? && env.warnDays < env.today - row.verified.value <= env.failDays
  }

  ghost function Warnings(row: Row, env: Env): nat {
    if !ValidStatus(row) then 0 else Bit(LacksNote(row)) + Bit(GrowingOld(row, env))
  }

  /** What a row has to meet, in its own fields. */
  lemma BoundInPlainTerms(row: Row, env: Env)
    ensures Bound(row, env)
            <==> && row.status in ["gated", "presence_only", "documented_residual"]
                 && row.artifacts != [] && (forall a <- row.artifacts :: a == "" || a == "." || a in env.tree)
                 && (row.status == "gated" ==>
                       || (row.gateKind == "audit_gate" && FirstFlag(row.gate) != None
                           && FirstFlag(row.gate).value in env.flags)
                       || (row.gateKind == "script" && (row.gate == "" || row.gate == "." || row.gate in env.tree)))
                 && (row.status == "presence_only" ==> row.gateKind == "presence")
                 && (row.status == "documented_residual" ==>
                       row.residual != "" && "docs/RESIDUAL_RISK_REGISTER.md" in env.tree)
                 && row.verified != None && env.today - row.verified.value <= env.failDays
  {
    hide FirstFlag;
    assert REGISTER != "" && REGISTER != ".";
  }

  /** A gated row that names a registered flag behind the gate's script passes. */
  lemma RegisteredFlagPasses(row: Row, env: Env, f: string)
    requires row.status == "gated" && row.gateKind == "audit_gate" && row.gate == "audit_gate.py " + f
    requires f in env.flags && |f| >= 2 && f[0] == '-' && f[1] == '-' && forall k :: 0 <= k < |f| ==> !IsBlank(f[k])
    requires row.artifacts != [] && forall a <- row.artifacts :: a in env.tree
    requires row.verified != None && env.today - row.verified.value <= env.failDays
    ensures Bound(row, env) && GateBound(row, env)
  {
    hide FirstFlag;
    var w := "audit_gate.py";
    assert Unbroken(w);
    assert row.gate == w + " " + f;
    FlagAfterAWord(w, f);
  }

  /** What counts against a row, and what it is warned for. */
  lemma DefectsInPlainTerms(row: Row, env: Env)
    requires row.status in ["gated", "presence_only", "documented_residual"]
    ensures Defects(row, env)
         == (if row.artifacts != [] && forall a <- row.artifacts :: a == "" || a == "." || a in env.tree then 0 else 1)
            + (if GateBound(row, env) then 0 else 1)
            + (if row.verified != None && env.today - row.verified.value <= env.failDays then 0 else 1)
    ensures Warnings(row, env)
         == (if row.status == "presence_only" && row.gateKind == "presence" && row.residual == "" then 1 else 0)
            + (if row.verified != None && env.warnDays < env.today - row.verified.value <= env.failDays then 1 else 0)
  {
    hide GateBound;
  }

  lemma InvalidRowInPlainTerms(row: Row, env: Env)
    requires row.status !in ["gated", "presence_only", "documented_residual"]
    ensures Defects(row, env) == 1 && Warnings(row, env) == 0 && !Bound(row, env)
  {}

  lemma OneMoreRow(rows: seq<Row>, row: Row, env: Env)
    ensures TotalDefects([], env) == 0 && TotalWarnings([], env) == 0
    ensures TotalDefects(rows + [row], env) == TotalDefects(rows, env) + Defects(row, env)
    ensures TotalWarnings(rows + [row], env) == TotalWarnings(rows, env) + Warnings(row, env)
  {
    assert (rows + [row])[..|rows|] == rows;
  }

  ghost function TotalWarnings(rows: seq<Row>, env: Env): nat {
    if rows == [] then 0 else TotalWarnings(rows[..|rows| - 1], env) + Warnings(rows[|rows| - 1], env)
  }

  ghost function TotalDefects(rows: seq<Row>, env: Env): nat {
    if rows == [] then 0 else TotalDefects(rows[..|rows| - 1], env) + Defects(rows[|rows| - 1], env)
  }

  lemma NoDefectsHere(row: Row, env: Env)
    ensures Defects(row, env) == 0 <==> Bound(row, env)
  {
    hide ValidStatus, ArtifactsBound, GateBound, FreshEnough;
  }

  lemma {:induction false} NoDefectsExactly(rows: seq<Row>, env: Env)
    ensures TotalDefects(rows, env) == 0 <==> forall row <- rows :: Bound(row, env)
  {
    hide Bound, Defects;
    if rows != [] {
      var init, last := rows[..|rows| - 1], rows[|rows| - 1];
      NoDefectsExactly(init, env);
      NoDefectsHere(last, env);
      assert rows == init + [last];
    }
  }

  // ---------------------------------------------------------------- the check

  datatype Reason =
    | InvalidStatus | NoArtifacts | MissingArtifacts(paths: seq<string>)
    | NoFlag | UnregisteredFlag(flag: string) | RegisteredFlag(flag: string)
    | MissingScript | PresentScript | NotExecutable
    | NotPresence | NoPresenceNote | PresenceGated
    | NoResidual | NoRegister | DocumentedResidual
    | TooOld(age: int) | GettingOld(age: int) | NoDate
    | Overall | MapMissing | MapMalformed | MapEmpty

  datatype Verdict = Verdict(severity: string, row: string, reason: Reason)

  /** The row's last finding fails: its date comes last, and its gate if the date raises nothing. */
  predicate RowEndsInFailure(row: Row, env: Env) {
    !ValidStatus(row) || !FreshEnough(row, env) || (!GrowingOld(row, env) && !GateBound(row, env))
  }

  predicate LastFails(fs: seq<Verdict>) {
    fs != [] && fs[|fs| - 1].severity == "FAIL"
  }

  /** What the reason says of the row is the case. */
  ghost predicate Holds(reason: Reason, row: Row, env: Env) {
    match reason
    case InvalidStatus => !ValidStatus(row)
    case NoArtifacts => row.artifacts == []
    case MissingArtifacts(paths) => paths != [] && forall p :: p in paths <==> p in row.artifacts && !Exists(env, p)
    case NoFlag => FirstFlag(row.gate).None?
    case UnregisteredFlag(flag) => FirstFlag(row.gate) == Some(flag) && flag !in env.flags
    case RegisteredFlag(flag) => FirstFlag(row.gate) == Some(flag) && flag in env.flags
    case MissingScript => row.gateKind == "script" && !Exists(env, row.gate)
    case PresentScript => row.gateKind == "script" && Exists(env, row.gate)
    case NotExecutable => row.gateKind !in ["audit_gate", "script"]
    case NotPresence => row.gateKind != "presence"
    case NoPresenceNote => LacksNote(row)
    case PresenceGated => row.gateKind == "presence" && row.residual != ""
    case NoResidual => row.residual == ""
    case NoRegister => !Exists(env, REGISTER)
    case DocumentedResidual => row.residual != "" && Exists(env, REGISTER)
    case TooOld(age) => row.verified.Some? && age == env.today - row.verified.value > env.failDays
    case GettingOld(age) => GrowingOld(row, env) && age == env.today - row.verified.value
    case NoDate => row.verified.None?
    case _ => false
  }

  /** What each reason says. */
  lemma ReasonsInPlainTerms(row: Row, env: Env)
    ensures Holds(InvalidStatus, row, env) <==> row.status !in ["gated", "presence_only", "documented_residual"]
    ensures Holds(NoArtifacts, row, env) <==> row.artifacts == []
    ensures forall ps :: Holds(MissingArtifacts(ps), row, env) ==>
              ps != [] && forall p :: p in ps <==> p in row.artifacts && p != "" && p != "." && p !in env.tree
  {}

  lemma GateReasonsInPlainTerms(row: Row, env: Env)
    ensures Holds(NoFlag, row, env) <==> FirstFlag(row.gate) == None
    ensures forall f :: Holds(UnregisteredFlag(f), row, env) ==> FirstFlag(row.gate) == Some(f) && f !in env.flags
    ensures forall f :: Holds(RegisteredFlag(f), row, env) ==> FirstFlag(row.gate) == Some(f) && f in env.flags
    ensures Holds(NotExecutable, row, env) <==> row.gateKind != "audit_gate" && row.gateKind != "script"
    ensures Holds(NotPresence, row, env) <==> row.gateKind != "presence"
    ensures Holds(PresenceGated, row, env) <==> row.gateKind == "presence" && row.residual != ""
  {
    hide FirstFlag, GrowingOld;
  }

  lemma MoreReasonsInPlainTerms(row: Row, env: Env)
    ensures Holds(MissingScript, row, env)
            <==> row.gateKind == "script" && row.gate != "" && row.gate != "." && row.gate !in env.tree
    ensures Holds(PresentScript, row, env)
            <==> row.gateKind == "script" && (row.gate == "" || row.gate == "." || row.gate in env.tree)
    ensures Holds(NoPresenceNote, row, env)
            <==> row.status == "presence_only" && row.gateKind == "presence" && row.residual == ""
    ensures Holds(NoResidual, row, env) <==> row.residual == ""
    ensures Holds(NoDate, row, env) <==> row.verified == None
    ensures forall age :: Holds(TooOld(age), row, env) ==>
              row.verified != None && age == env.today - row.verified.value > env.failDays
    ensures forall age :: Holds(GettingOld(age), row, env) ==>
              row.verified != None && age == env.today - row.verified.value && env.warnDays < age <= env.failDays
  {
    hide FirstFlag;
  }

  lemma SummariesHoldOfNoRow(row: Row, env: Env)
    ensures !Holds(Overall, row, env) && !Holds(MapMissing, row, env)
    ensures !Holds(MapMalformed, row, env) && !Holds(MapEmpty, row, env)
  {}

  lemma RegisterInPlainTerms(row: Row, env: Env)
    ensures Holds(NoRegister, row, env) <==> "docs/RESIDUAL_RISK_REGISTER.md" !in env.tree
    ensures Holds(DocumentedResidual, row, env)
            <==> row.residual != "" && "docs/RESIDUAL_RISK_REGISTER.md" in env.tree
  {
    assert REGISTER != "" && REGISTER != ".";
  }

  /** What is counted among findings. */
  lemma OneMoreVerdict(fs: seq<Verdict>, f: Verdict)
    ensures Fails([]) == Warns([]) == 0
    ensures Fails(fs + [f]) == Fails(fs) + if f.severity == "FAIL" then 1 else 0
    ensures Warns(fs + [f]) == Warns(fs) + if f.severity == "WARN" then 1 else 0
    ensures LastFails(fs + [f]) <==> f.severity == "FAIL"
  {
    assert (fs + [f])[..|fs|] == fs;
  }

  /** The finding is about one of the rows and true of it. */
  ghost predicate TrueOfSome(f: Verdict, rows: seq<Row>, env: Env) {
    exists row <- rows :: f.row == row.id && Holds(f.reason, row, env)
  }

  /** The number of findings of a severity. */
  ghost function Count(fs: seq<Verdict>, severity: string): nat {
    if fs == [] then 0 else Count(fs[..|fs| - 1], severity) + Bit(fs[|fs| - 1].severity == severity)
  }

  ghost function Fails(fs: seq<Verdict>): nat {
    Count(fs, "FAIL")
  }

  ghost function Warns(fs: seq<Verdict>): nat {
    Count(fs, "WARN")
  }

  lemma {:induction false} CountConcat(a: seq<Verdict>, b: seq<Verdict>, severity: string)
    ensures Count(a + b, severity) == Count(a, severity) + Count(b, severity)
    decreases |b|
  {
    if b == [] {
      assert a + b == a;
    } else {
      CountConcat(a, b[..|b| - 1], severity);
      assert (a + b)[..|a + b| - 1] == a + b[..|b| - 1];
    }
  }

  lemma Concat(a: seq<Verdict>, b: seq<Verdict>)
    ensures Fails(a + b) == Fails(a) + Fails(b) && Warns(a + b) == Warns(a) + Warns(b)
  {
    CountConcat(a, b, "FAIL");
    CountConcat(a, b, "WARN");
  }

  lemma NothingCounts()
    ensures Fails([]) == Warns([]) == 0
  {}

  lemma CountOne(f: Verdict, severity: string)
    ensures Count([f], severity) == Bit(f.severity == severity)
  {
    assert Count([f][..0], severity) == 0;
  }

  lemma One(f: Verdict)
    ensures Fails([f]) == Bit(f.severity == "FAIL") && Warns([f]) == Bit(f.severity == "WARN")
  {
    CountOne(f, "FAIL");
    CountOne(f, "WARN");
  }

  /** The declared artifacts that do not exist, in their order. */
  ghost function MissingOf(artifacts: seq<string>, env: Env): seq<string> {
    if artifacts == [] then []
    else
      var a := artifacts[|artifacts| - 1];
      MissingOf(artifacts[..|artifacts| - 1], env) + if Exists(env, a) then [] else [a]
  }

  lemma {:induction false} MissingExactly(artifacts: seq<string>, env: Env)
    ensures forall p :: p in MissingOf(artifacts, env) <==> p in artifacts && !Exists(env, p)
    ensures MissingOf(artifacts, env) == [] <==> forall a <- artifacts :: Exists(env, a)
  {
    if artifacts != [] {
      MissingExactly(artifacts[..|artifacts| - 1], env);
      assert artifacts == artifacts[..|artifacts| - 1] + [artifacts[|artifacts| - 1]];
    }
  }

  lemma OneMoreArtifact(artifacts: seq<string>, a: string, env: Env)
    ensures MissingOf([], env) == []
    ensures MissingOf(artifacts + [a], env)
         == MissingOf(artifacts, env) + if a == "" || a == "." || a in env.tree then [] else [a]
  {
    assert (artifacts + [a])[..|artifacts|] == artifacts;
  }

  method CheckArtifacts(row: Row, env: Env) returns (fs: seq<Verdict>, blocking: nat)
    ensures blocking == Fails(fs) == Bit(!ArtifactsBound(row, env))
    ensures Warns(fs) == 0
    ensures |fs| <= 1 && forall f <- fs :: f.row == row.id && Holds(f.reason, row, env)
    ensures fs != [] ==>
              fs[0] == Verdict(
                "FAIL", row.id, if row.artifacts == [] then NoArtifacts
                                else MissingArtifacts(MissingOf(row.artifacts, env)))
  {
    hide Fails, Warns;
    fs, blocking := [], 0;
    NothingCounts();
    if row.artifacts == [] {
      fs, blocking := [Verdict("FAIL", row.id, NoArtifacts)], 1;
    } else {
      var missing := [];
      for i := 0 to |row.artifacts|
        invariant missing == MissingOf(row.artifacts[..i], env)
      {
        assert row.artifacts[..i + 1][..i] == row.artifacts[..i];
        if !Exists(env, row.artifacts[i]) { missing := missing + [row.artifacts[i]]; }
      }
      assert row.artifacts[..|row.artifacts|] == row.artifacts;
      MissingExactly(row.artifacts, env);
      if missing != [] {
        fs, blocking := [Verdict("FAIL", row.id, MissingArtifacts(missing))], 1;
      }
    }
    if fs != [] { One(fs[0]); }
  }

  /** Exactly one finding about the gate, a warning or a pass when it is bound. */
  method CheckGate(row: Row, env: Env) returns (f: Verdict, blocking: nat)
    requires ValidStatus(row)
    ensures blocking == Bit(f.severity == "FAIL") == Bit(!GateBound(row, env))
    ensures f.severity == "WARN" <==> LacksNote(row)
    ensures f.severity in ["FAIL", "WARN", "PASS"] && f.row == row.id && Holds(f.reason, row, env)
    ensures row.status == "gated" && row.gateKind == "audit_gate" ==>
              f.reason.NoFlag? || f.reason.UnregisteredFlag? || f.reason.RegisteredFlag?
    ensures row.status == "gated" && row.gateKind == "script" ==> f.reason.MissingScript? || f.reason.PresentScript?
    ensures row.status == "gated" && row.gateKind !in ["audit_gate", "script"] ==> f.reason.NotExecutable?
    ensures row.status == "presence_only" ==>
              f.reason.NotPresence? || f.reason.NoPresenceNote? || f.reason.PresenceGated?
    ensures row.status == "documented_residual" ==>
              if row.residual == "" then f.reason.NoResidual? else f.reason.NoRegister? || f.reason.DocumentedResidual?
  {
    blocking := 0;
    if row.status == "gated" {
      if row.gateKind == "audit_gate" {
        var flag := FirstFlag(row.gate);
        if flag.None? {
          f, blocking := Verdict("FAIL", row.id, NoFlag), 1;
        } else if flag.value !in env.flags {
          f, blocking := Verdict("FAIL", row.id, UnregisteredFlag(flag.value)), 1;
        } else {
          f := Verdict("PASS", row.id, RegisteredFlag(flag.value));
        }
      } else if row.gateKind == "script" {
        if !Exists(env, row.gate) {
          f, blocking := Verdict("FAIL", row.id, MissingScript), 1;
        } else {
          f := Verdict("PASS", row.id, PresentScript);
        }
      } else {
        f, blocking := Verdict("FAIL", row.id, NotExecutable), 1;
      }
    } else if row.status == "presence_only" {
      if row.gateKind != "presence" {
        f, blocking := Verdict("FAIL", row.id, NotPresence), 1;
      } else if row.residual == "" {
        f := Verdict("WARN", row.id, NoPresenceNote);
      } else {
        f := Verdict("PASS", row.id, PresenceGated);
      }
    } else {
      if row.residual == "" {
        f, blocking := Verdict("FAIL", row.id, NoResidual), 1;
      } else if !Exists(env, REGISTER) {
        f, blocking := Verdict("FAIL", row.id, NoRegister), 1;
      } else {
        f := Verdict("PASS", row.id, DocumentedResidual);
      }
    }
  }

  method CheckFreshness(row: Row, env: Env) returns (fs: seq<Verdict>, blocking: nat)
    ensures blocking == Fails(fs) == Bit(!FreshEnough(row, env))
    ensures Warns(fs) == Bit(GrowingOld(row, env))
    ensures LastFails(fs) <==> !FreshEnough(row, env)
    ensures fs == [] <==> FreshEnough(row, env) && !GrowingOld(row, env)
    ensures |fs| <= 1 && forall f <- fs :: f.row == row.id && Holds(f.reason, row, env)
    ensures forall f <- fs ::
              if f.severity == "FAIL" then f.reason.NoDate? || f.reason.TooOld?
              else f.severity == "WARN" && f.reason.GettingOld?
  {
    fs, blocking := [], 0;
    if row.verified.None? {
      fs, blocking := [Verdict("FAIL", row.id, NoDate)], 1;
    } else {
      var age := env.today - row.verified.value;
      if age > env.failDays {
        fs, blocking := [Verdict("FAIL", row.id, TooOld(age))], 1;
      } else if age > env.warnDays {
        fs := [Verdict("WARN", row.id, GettingOld(age))];
      }
    }
    if fs != [] { One(fs[0]); }
  }

  /** The findings of one row; an invalid status skips the other checks. */
  method CheckRow(row: Row, env: Env) returns (fs: seq<Verdict>, blocking: nat)
    ensures blocking == Fails(fs) == Defects(row, env)
    ensures Warns(fs) == Warnings(row, env)
    ensures fs != [] && (LastFails(fs) <==> RowEndsInFailure(row, env))
    ensures forall f <- fs :: f.row == row.id && Holds(f.reason, row, env)
  {
    hide GateBound, FreshEnough, ArtifactsBound, LacksNote, GrowingOld, Fails, Warns;
    if row.status !in ["gated", "presence_only", "documented_residual"] {
      var f := Verdict("FAIL", row.id, InvalidStatus);
      One(f);
      fs, blocking := [f], 1;
      return;
    }
    var artifacts, a := CheckArtifacts(row, env);
    var gate, g := CheckGate(row, env);
    var freshness, d := CheckFreshness(row, env);
    One(gate);
    Concat(artifacts, [gate]);
    Concat(artifacts + [gate], freshness);
    fs, blocking := artifacts + [gate] + freshness, a + g + d;
  }

  datatype Counters = Counters(blocking: nat, gated: nat, presence: nat, residual: nat)

  ghost function StatusCount(rows: seq<Row>, status: string): nat {
    if rows == [] then 0 else StatusCount(rows[..|rows| - 1], status) + Bit(rows[|rows| - 1].status == status)
  }

  ghost function InvalidCount(rows: seq<Row>): nat {
    if rows == [] then 0 else InvalidCount(rows[..|rows| - 1]) + Bit(!ValidStatus(rows[|rows| - 1]))
  }

  lemma LastOfConcat(a: seq<Verdict>, b: seq<Verdict>)
    requires b != []
    ensures LastFails(a + b) <==> LastFails(b)
  {}

  lemma TrueOfThisRow(fs: seq<Verdict>, rows: seq<Row>, i: nat, env: Env)
    requires i < |rows| && forall f <- fs :: f.row == rows[i].id && Holds(f.reason, rows[i], env)
    ensures forall f <- fs :: TrueOfSome(f, rows, env)
  {
    hide Holds;
    assert rows[i] in rows;
  }

  lemma OneMoreStatus(rows: seq<Row>, row: Row, status: string)
    ensures StatusCount([], status) == 0 && InvalidCount([]) == 0
    ensures StatusCount(rows + [row], status) == StatusCount(rows, status) + if row.status == status then 1 else 0
    ensures InvalidCount(rows + [row])
         == InvalidCount(rows)
            + if row.status in ["gated", "presence_only", "documented_residual"] then 0 else 1
  {
    assert (rows + [row])[..|rows|] == rows;
  }

  lemma CountsStep(rows: seq<Row>, i: nat, env: Env, status: string)
    requires i < |rows|
    ensures TotalDefects(rows[..i + 1], env) == TotalDefects(rows[..i], env) + Defects(rows[i], env)
    ensures TotalWarnings(rows[..i + 1], env) == TotalWarnings(rows[..i], env) + Warnings(rows[i], env)
    ensures StatusCount(rows[..i + 1], status) == StatusCount(rows[..i], status) + Bit(rows[i].status == status)
  {
    assert rows[..i + 1][..i] == rows[..i];
  }

  lemma {:induction false} StatusesAddUp(rows: seq<Row>)
    ensures StatusCount(rows, "gated") + StatusCount(rows, "presence_only")
            + StatusCount(rows, "documented_residual") + InvalidCount(rows) == |rows|
  {
    if rows != [] { StatusesAddUp(rows[..|rows| - 1]); }
  }

  /** The row loop. Every row is counted under exactly one status or fails as invalid, and the
      blocking counter is both the number of FAIL findings and the number of defects. */
  method CheckRows(rows: seq<Row>, env: Env) returns (fs: seq<Verdict>, c: Counters)
    ensures c.blocking == Fails(fs) == TotalDefects(rows, env)
    ensures rows != [] ==> fs != [] && (LastFails(fs) <==> RowEndsInFailure(rows[|rows| - 1], env))
    ensures Warns(fs) == TotalWarnings(rows, env)
    ensures forall f <- fs :: TrueOfSome(f, rows, env)
    ensures forall f <- fs :: exists row <- rows :: f.row == row.id && Holds(f.reason, row, env)
    ensures c.gated == StatusCount(rows, "gated") && c.presence == StatusCount(rows, "presence_only")
    ensures c.residual == StatusCount(rows, "documented_residual")
    ensures c.gated + c.presence + c.residual + InvalidCount(rows) == |rows|
  {
    fs, c := [], Counters(0, 0, 0, 0);
    for i := 0 to |rows|
      invariant c.blocking == Fails(fs) == TotalDefects(rows[..i], env)
      invariant Warns(fs) == TotalWarnings(rows[..i], env)
      invariant forall f <- fs :: TrueOfSome(f, rows, env)
      invariant i > 0 ==> fs != [] && (LastFails(fs) <==> RowEndsInFailure(rows[i - 1], env))
      invariant c.gated == StatusCount(rows[..i], "gated")
      invariant c.presence == StatusCount(rows[..i], "presence_only")
      invariant c.residual == StatusCount(rows[..i], "documented_residual")
    {
      hide *;
      var row := rows[i];
      CountsStep(rows, i, env, "gated");
      CountsStep(rows, i, env, "presence_only");
      CountsStep(rows, i, env, "documented_residual");
      var found, blocking := CheckRow(row, env);
      Concat(fs, found);
      LastOfConcat(fs, found);
      TrueOfThisRow(found, rows, i, env);
      fs := fs + found;
      c := c.(blocking := c.blocking + blocking);
      if row.status == "gated" {
        c := c.(gated := c.gated + 1);
      } else if row.status == "presence_only" {
        c := c.(presence := c.presence + 1);
      } else if row.status == "documented_residual" {
        c := c.(residual := c.residual + 1);
      }
    }
    assert rows[..|rows|] == rows;
    StatusesAddUp(rows);
  }

  /** A configured number of days: absent, a number, or something `int()` refuses. */
  datatype Days = Absent | Number(n: int) | Unusable

  /** The requirement map as it is found on disk. */
  datatype MapFile = Missing | Malformed | NoRows | Rows(rows: seq<Row>, warn: Days, fail: Days)

  function DaysOr(d: Days, other: int): int {
    if d.Number? then d.n else other
  }

  /** The surroundings with the map's own limits; one unusable limit resets both. */
  function WithLimits(env: Env, warn: Days, fail: Days): Env {
    if warn.Unusable? || fail.Unusable? then env.(warnDays := 180, failDays := 540)
    else env.(warnDays := DaysOr(warn, 180), failDays := DaysOr(fail, 540))
  }

  /** The limits: 180 and 540 days unless the map says otherwise, and both of these as soon as either
      limit is unusable. */
  lemma LimitsInPlainTerms(env: Env, warn: Days, fail: Days)
    ensures WithLimits(env, warn, fail)
         == env.(warnDays := WithLimits(env, warn, fail).warnDays, failDays := WithLimits(env, warn, fail).failDays)
    ensures var limits := WithLimits(env, warn, fail);
            && (warn == Unusable || fail == Unusable ==> limits.warnDays == 180 && limits.failDays == 540)
            && (warn == Absent ==> limits.warnDays == 180)
            && (fail == Absent ==> limits.failDays == 540)
            && (warn.Number? && fail != Unusable ==> limits.warnDays == warn.n)
            && (fail.Number? && warn != Unusable ==> limits.failDays == fail.n)
  {}

  /** A map passes with rows that are all bound under its limits. */
  lemma AllBoundInPlainTerms(m: MapFile, env: Env)
    ensures AllBound(m, env)
            <==> m.Rows? && m.rows != [] && forall row <- m.rows :: Bound(row, WithLimits(env, m.warn, m.fail))
    ensures m.Rows? && m.rows != [] ==>
              var row, limits := m.rows[|m.rows| - 1], WithLimits(env, m.warn, m.fail);
              MapEndsInFailure(m, env)
              <==> || row.status !in ["gated", "presence_only", "documented_residual"]
                   || row.verified == None || limits.today - row.verified.value > limits.failDays
                   || (limits.today - row.verified.value <= limits.warnDays && !GateBound(row, limits))
    ensures !m.Rows? || m.rows == [] ==> MapEndsInFailure(m, env)
  {
    hide Bound, GateBound, WithLimits;
  }

  ghost predicate AllBound(m: MapFile, env: Env) {
    m.Rows? && m.rows != [] && forall row <- m.rows :: Bound(row, WithLimits(env, m.warn, m.fail))
  }

  /** The check's last finding fails: the map is unusable, or its last row ends in a failure. */
  predicate MapEndsInFailure(m: MapFile, env: Env) {
    if m.Rows? && m.rows != [] then RowEndsInFailure(m.rows[|m.rows| - 1], WithLimits(env, m.warn, m.fail))
    else true
  }

  /** The whole check. Its first finding is the summary; it fails, and some finding fails,
      exactly when the map is unusable or some requirement is not bound. */
  method CheckExternalAuditReplacement(m: MapFile, env: Env) returns (fs: seq<Verdict>)
    ensures fs != [] && fs[0].severity in ["FAIL", "PASS"]
    ensures fs[0].severity == "PASS" <==> AllBound(m, env)
    ensures Fails(fs) == 0 <==> AllBound(m, env)
    ensures m.Rows? && m.rows != [] ==>
              && Fails(fs[1..]) == TotalDefects(m.rows, WithLimits(env, m.warn, m.fail))
              && Warns(fs) == TotalWarnings(m.rows, WithLimits(env, m.warn, m.fail))
              && forall f <- fs[1..] :: TrueOfSome(f, m.rows, WithLimits(env, m.warn, m.fail))
    ensures m.Rows? && m.rows != [] ==>
              forall f <- fs[1..] ::
                exists row <- m.rows :: f.row == row.id && Holds(f.reason, row, WithLimits(env, m.warn, m.fail))
    ensures !m.Rows? || m.rows == [] ==> |fs| == 1
    ensures LastFails(fs) <==> MapEndsInFailure(m, env)
    ensures m.Missing? ==> fs[0].reason == MapMissing
    ensures m.Malformed? ==> fs[0].reason == MapMalformed
    ensures m.NoRows? || (m.Rows? && m.rows == []) ==> fs[0].reason == MapEmpty
    ensures m.Rows? && m.rows != [] ==> fs[0].reason == Overall
    ensures fs[0].row == ""
  {
    hide Bound;
    if m.Missing? {
      fs := [Verdict("FAIL", "", MapMissing)];
      One(fs[0]);
      return;
    }
    if m.Malformed? {
      fs := [Verdict("FAIL", "", MapMalformed)];
      One(fs[0]);
      return;
    }
    if m.NoRows? || m.rows == [] {
      fs := [Verdict("FAIL", "", MapEmpty)];
      One(fs[0]);
      return;
    }
    var limits := WithLimits(env, m.warn, m.fail);
    var findings, c := CheckRows(m.rows, limits);
    NoDefectsExactly(m.rows, limits);
    var summary := Verdict(if c.blocking == 0 then "PASS" else "FAIL", "", Overall);
    One(summary);
    Concat([summary], findings);
    LastOfConcat([summary], findings);
    fs := [summary] + findings;
    assert fs[1..] == findings;
  }

  // ---------------------------------------------------------------- the passing of time

  lemma {:induction false} DefectsOnlyGrowWithTime(rows: seq<Row>, env: Env, later: int)
    requires env.today <= later
    ensures TotalDefects(rows, env) <= TotalDefects(rows, env.(today := later))
  {
    hide GateBound;
    if rows != [] {
      var row := rows[|rows| - 1];
      DefectsOnlyGrowWithTime(rows[..|rows| - 1], env, later);
      SameSurroundings(row, env, later);
    }
  }

  lemma SameSurroundings(row: Row, env: Env, later: int)
    ensures ArtifactsBound(row, env) <==> ArtifactsBound(row, env.(today := later))
    ensures GateBound(row, env) <==> GateBound(row, env.(today := later))
  {
    assert forall p :: Exists(env, p) <==> Exists(env.(today := later), p);
  }

  // ---------------------------------------------------------------- what a row is meant to bind

  /** The path is a `.py` path directly in the directory ci. */
  predicate MatchesGateScripts(path: string) {
    && |path| > 6 && path[..3] == "ci/" && path[|path| - 3..] == ".py"
    && '/' !in path[3..]
  }

  /** What a closed gap has to name: a registered sub-check of the gate, or a gate script
      of the directory ci that exists as a file. */
  predicate NamesAGate(row: Row, env: Env) {
    || (row.gateKind == "audit_gate" && FirstFlag(row.gate).Some? && FirstFlag(row.gate).value in env.flags)
    || (row.gateKind == "script" && MatchesGateScripts(row.gate) && At(env, row.gate) == Some(File))
  }

  /** The check only asks that a script's path exists, so a gated row that passes names a gate
      exactly when it is no script row, or its path is one of those and no directory. */
  lemma PassingGateIsNamedExactly(row: Row, env: Env)
    requires row.status == "gated" && GateBound(row, env)
    ensures NamesAGate(row, env)
            <==> row.gateKind != "script" || (MatchesGateScripts(row.gate) && At(env, row.gate) != Some(Directory))
  {
    if row.gateKind == "script" {
      match At(env, row.gate) {
        case Some(kind) => assert kind == File || kind == Directory;
        case None => assert false;
      }
    }
  }

  /** The paths of gate scripts are those that a pattern for `.py` files directly in ci matches. */
  lemma GateScriptsInPlainTerms(path: string)
    ensures MatchesGateScripts(path)
            <==> exists stem :: stem != "" && '/' !in stem && path == "ci/" + stem + ".py"
  {
    if MatchesGateScripts(path) {
      var stem := path[3..|path| - 3];
      assert path == path[..3] + stem + path[|path| - 3..];
      assert forall c <- stem :: c in path[3..];
    }
    if stem :| stem != "" && '/' !in stem && path == "ci/" + stem + ".py" {
      assert path[3..] == stem + ".py" && path[..3] == "ci/" && path[|path| - 3..] == ".py";
    }
  }

  /** The promise in a row's own fields. */
  lemma PromiseInPlainTerms(row: Row, env: Env)
    ensures KeepsPromise(row, env)
            <==> || (row.status == "gated" && row.gateKind == "audit_gate"
                     && FirstFlag(row.gate) != None && FirstFlag(row.gate).value in env.flags)
                 || (row.status == "gated" && row.gateKind == "script" && MatchesGateScripts(row.gate)
                     && row.gate in env.tree && env.tree[row.gate] == File)
                 || (row.status == "documented_residual" && row.residual != "" && row.id in env.tracked
                     && "docs/RESIDUAL_RISK_REGISTER.md" in env.tree
                     && env.tree["docs/RESIDUAL_RISK_REGISTER.md"] == File)
  {
    hide FirstFlag;
    assert REGISTER != "" && REGISTER != ".";
  }

  ghost predicate ScriptsAreGates(rows: seq<Row>, env: Env) {
    forall row <- rows :: row.status == "gated" && row.gateKind == "script" ==>
      MatchesGateScripts(row.gate) && At(env, row.gate) != Some(Directory)
  }

  /** A map that passes names a gate in all its gated rows exactly when each of its script rows has
      such a path. */
  lemma PassingMapNamesGatesExactly(m: MapFile, env: Env)
    requires AllBound(m, env)
    ensures (forall row <- m.rows :: row.status == "gated" ==> NamesAGate(row, env)) <==> ScriptsAreGates(m.rows, env)
  {
    hide NamesAGate, MatchesGateScripts, FirstFlag, At;
    var limits := WithLimits(env, m.warn, m.fail);
    forall row | row in m.rows && row.status == "gated"
      ensures NamesAGate(row, env)
              <==> row.gateKind != "script" || (MatchesGateScripts(row.gate) && At(env, row.gate) != Some(Directory))
    {
      assert Bound(row, limits);
      SameTree(row, env, limits);
      PassingGateIsNamedExactly(row, env);
    }
  }

  /** What an accepted risk has to be: a stated one that the register tracks. */
  predicate IsTrackedResidual(row: Row, env: Env) {
    row.residual != "" && At(env, REGISTER) == Some(File) && row.id in env.tracked
  }

  /** The promise for every row: it binds to a gate, or it is a documented residual. */
  predicate KeepsPromise(row: Row, env: Env) {
    || (row.status == "gated" && NamesAGate(row, env))
    || (row.status == "documented_residual" && IsTrackedResidual(row, env))
  }

  ghost predicate ResidualsAreTracked(rows: seq<Row>, env: Env) {
    forall row <- rows :: row.status == "documented_residual" ==>
      row.id in env.tracked && At(env, REGISTER) != Some(Directory)
  }

  ghost predicate NoPresenceRows(rows: seq<Row>) {
    forall row <- rows :: row.status != "presence_only"
  }

  lemma PassingResidualIsTrackedExactly(row: Row, env: Env)
    requires row.status == "documented_residual" && GateBound(row, env)
    ensures IsTrackedResidual(row, env) <==> row.id in env.tracked && At(env, REGISTER) != Some(Directory)
  {
    match At(env, REGISTER) {
      case Some(kind) => assert kind == File || kind == Directory;
      case None => assert false;
    }
  }

  /** A map that passes binds every row to a gate or a documented residual, as the passing summary
      says, exactly when it has no presence row, its script rows have gate paths, and the register
      tracks its residual rows. */
  lemma PassingMapKeepsThePromiseExactly(m: MapFile, env: Env)
    requires AllBound(m, env)
    ensures (forall row <- m.rows :: KeepsPromise(row, env))
            <==> NoPresenceRows(m.rows) && ScriptsAreGates(m.rows, env) && ResidualsAreTracked(m.rows, env)
  {
    hide NamesAGate, At, IsTrackedResidual, ScriptsAreGates, GateBound;
    var limits := WithLimits(env, m.warn, m.fail);
    PassingMapNamesGatesExactly(m, env);
    forall row | row in m.rows
      ensures ValidStatus(row)
      ensures row.status == "documented_residual" ==>
                (IsTrackedResidual(row, env) <==> row.id in env.tracked && At(env, REGISTER) != Some(Directory))
    {
      assert Bound(row, limits);
      SameTree(row, env, limits);
      if row.status == "documented_residual" { PassingResidualIsTrackedExactly(row, env); }
    }
  }

  lemma SameTree(row: Row, env: Env, limits: Env)
    requires limits.tree == env.tree && limits.flags == env.flags
    ensures GateBound(row, limits) <==> GateBound(row, env)
  {}

  /** A presence row passes with no gate, no residual and no note, its one artifact a document. */
  lemma PresenceAlonePasses(env: Env)
    requires env.tree == map["README.md" := File] && 0 <= env.failDays
    ensures var row := Row("r", "presence_only", "", "presence", "", ["README.md"], Some(env.today));
            Bound(row, env) && !KeepsPromise(row, env)
  {}

  /** A residual row passes although the register does not track it. */
  lemma UntrackedResidualPasses(env: Env)
    requires env.tree == map["README.md" := File, REGISTER := File] && "r" !in env.tracked && 0 <= env.failDays
    ensures var row := Row("r", "documented_residual", "", "", "accepted", ["README.md"], Some(env.today));
            Bound(row, env) && !KeepsPromise(row, env)
  {}

  /** The root under either name, a directory and a plain document all pass for a gate script,
      with all the rest in order. */
  lemma NoGatePasses(path: string, env: Env)
    requires path in ["", ".", "docs", "README.md"]
    requires env.tree == map["docs" := Directory, "README.md" := File] && 0 <= env.failDays
    ensures var row := Row("r", "gated", path, "script", "", ["README.md"], Some(env.today));
            Bound(row, env) && !NamesAGate(row, env)
  {
    assert forall p <- ["", ".", "docs", "README.md"] :: !MatchesGateScripts(p);
  }

  // ---------------------------------------------------------------- what a diff sees of it

  const TITLE: string := "P21: External-Audit Replacement Gate"

  lemma {:induction false} FailsAreSeverities(fs: seq<Verdict>, gs: seq<GateFinding>)
    requires |gs| == |fs| && forall i :: 0 <= i < |fs| ==> gs[i].severity == fs[i].severity
    ensures SeveritiesIn(gs, "FAIL") == Fails(fs)
  {
    if fs != [] { FailsAreSeverities(fs[..|fs| - 1], gs[..|gs| - 1]); }
  }

  /** The check's result on this map. */
  ghost predicate IsResultOn(r: CheckResult, m: MapFile, env: Env) {
    && r.title == TITLE && r.findings != []
    && (SeveritiesIn(r.findings, "FAIL") == 0 <==> AllBound(m, env))
    && (r.findings[|r.findings| - 1].severity == "FAIL" <==> MapEndsInFailure(m, env))
  }

  /** The check as the gate calls it; `text` words the findings. */
  method RunCheck(m: MapFile, env: Env, text: Verdict -> string) returns (r: CheckResult)
    ensures IsResultOn(r, m, env)
    ensures r.title == "P21: External-Audit Replacement Gate" && r.findings != []
    ensures (exists f <- r.findings :: f.severity == "FAIL") <==> !AllBound(m, env)
    ensures r.findings[0].severity == "FAIL" <==> !AllBound(m, env)
    ensures r.findings[|r.findings| - 1].severity == "FAIL" <==> MapEndsInFailure(m, env)
  {
    hide AllBound, MapEndsInFailure, Fails;
    var fs := CheckExternalAuditReplacement(m, env);
    var findings := seq(|fs|, i requires 0 <= i < |fs| => GateFinding(fs[i].severity, text(fs[i])));
    FailsAreSeverities(fs, findings);
    SeveritiesInPositive(findings, "FAIL");
    r := CheckResult(TITLE, findings);
  }

  lemma {:induction false} LastFindingAmong(before: seq<CheckResult>, r: CheckResult, after: seq<CheckResult>)
    requires r.findings != [] && forall other <- after :: other.title != r.title
    ensures LastFinding(before + [r] + after, r.title) == Some(r.findings[|r.findings| - 1])
    decreases |after|
  {
    var rs := before + [r] + after;
    if after == [] {
      assert rs[|rs| - 1] == r;
    } else {
      var n := |after| - 1;
      LastFindingAmong(before, r, after[..n]);
      assert rs[..|rs| - 1] == before + [r] + after[..n] && rs[|rs| - 1] == after[n];
    }
  }

  /** Among any other checks, the check is a blocking key for the regression diff exactly when the
      map is unusable, or the last row has an invalid status, is not fresh enough, or is not growing
      old while its gate is unbound. The summary, which fails whenever anything does, comes first
      and never counts. */
  lemma FailureIsVisibleExactly(before: seq<CheckResult>, r: CheckResult, after: seq<CheckResult>, m: MapFile, env: Env)
    requires IsResultOn(r, m, env) && forall other <- after :: other.title != TITLE
    ensures TitleKey(TITLE) in BlockingKeys(ByKey(EventsOfSections(SectionsOf(before + [r] + after))))
            <==> MapEndsInFailure(m, env)
  {
    hide MapEndsInFailure, AllBound, BlockingKeys, ByKey, EventsOfSections, SectionsOf, LastFinding;
    LastFindingAmong(before, r, after);
    DiffSeesOnlyLastFindings(before + [r] + after);
  }

  /** Missing or undeclared artifacts alone fail the check and are never visible. */
  lemma MissingArtifactsAloneNeverShow(m: MapFile, env: Env)
    requires m.Rows? && m.rows != []
    requires var limits := WithLimits(env, m.warn, m.fail);
             forall row <- m.rows :: ValidStatus(row) && GateBound(row, limits) && FreshEnough(row, limits)
    ensures !MapEndsInFailure(m, env)
    ensures AllBound(m, env) <==> forall row <- m.rows :: ArtifactsBound(row, WithLimits(env, m.warn, m.fail))
  {
    hide ValidStatus, GateBound, FreshEnough, ArtifactsBound, GrowingOld, WithLimits;
    assert m.rows[|m.rows| - 1] in m.rows;
  }
}
