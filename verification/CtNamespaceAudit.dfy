/** The per-file pattern audit, the structural checks and the result code of
    audit/audit_ct_namespace.cpp. A source tree is a map from path to content. */
module CtNamespaceAudit {
  import opened AuditCheck
  import opened Counting
  import opened LiteralLexer
  import opened TextScan
  import opened CommentStripper

  const ADVISORY_SKIP_CODE: int := 77
  const MAX_FILE_SIZE: nat := 4 * 1024 * 1024
  const CT_SIGN: string := "/src/cpu/src/ct_sign.cpp"
  const ECDH: string := "/src/cpu/src/ecdh.cpp"
  const ROOT_CANDIDATES: seq<string> := [
    ".", "..", "../..", "../../..", "../libs/UltrafastSecp256k1", "../../libs/UltrafastSecp256k1",
    "../../../libs/UltrafastSecp256k1", "libs/UltrafastSecp256k1"
  ]

  type Tree = map<string, string>

  datatype FileAudit = FileAudit(relPath: string, required: seq<string>, prohibited: seq<string>)

  /** What the reader hands over for an opened file: an oversized one reads as empty. */
  function Content(tree: Tree, path: string): string
    requires path in tree
  {
    if |tree[path]| > MAX_FILE_SIZE then "" else tree[path]
  }

  ghost function MissingRequired(src: string, required: seq<string>): nat {
    if required == [] then 0
    else
      MissingRequired(src, required[..|required| - 1])
      + if SpelledInCode(src, required[|required| - 1]) then 0 else 1
  }

  ghost function PresentProhibited(src: string, prohibited: seq<string>): nat {
    if prohibited == [] then 0
    else
      PresentProhibited(src, prohibited[..|prohibited| - 1])
      + if SpelledInCode(src, prohibited[|prohibited| - 1]) then 1 else 0
  }

  /** The number of violated patterns, stated on the source itself. */
  ghost function Violations(src: string, audit: FileAudit): nat {
    MissingRequired(src, audit.required) + PresentProhibited(src, audit.prohibited)
  }

  /** The four structural conditions. Only the first looks at stripped text; an absent file
      violates both conditions that read it. */
  ghost function StructuralViolations(tree: Tree, root: string): nat {
    var signPath, ecdhPath := root + CT_SIGN, root + ECDH;
    Bit(signPath !in tree
        || SpelledInCode(Content(tree, signPath), "#include \"secp256k1/fast.hpp\"")
        || SpelledInCode(Content(tree, signPath), "#include <secp256k1/fast.hpp>"))
    + Bit(ecdhPath !in tree || !Contains(Content(tree, ecdhPath), "secp256k1/ct/point.hpp"))
    + Bit(signPath !in tree || !Contains(Content(tree, signPath), "detail/secure_erase.hpp"))
    + Bit(ecdhPath !in tree || !Contains(Content(tree, ecdhPath), "secure_erase"))
  }

  function PathOf(root: string, audit: FileAudit): string {
    root + "/" + audit.relPath
  }

  ghost predicate SomeFileAbsent(tree: Tree, root: string, audits: seq<FileAudit>) {
    exists a <- audits :: PathOf(root, a) !in tree
  }

  ghost predicate SomeFileViolates(tree: Tree, root: string, audits: seq<FileAudit>) {
    exists a <- audits :: PathOf(root, a) in tree && Violations(Content(tree, PathOf(root, a)), a) > 0
  }

  /** Where a file is looked for, and what is read of it: all of it up to four megabytes, nothing of a
      larger one. */
  lemma FilesInPlainTerms(tree: Tree, root: string, audit: FileAudit)
    ensures PathOf(root, audit) == root + "/" + audit.relPath
    ensures forall path <- tree :: Content(tree, path) == if |tree[path]| <= 4194304 then tree[path] else ""
  {}

  /** What a file's patterns count: a required one that its code does not spell, and a prohibited one
      that it does. */
  lemma OneMorePattern(src: string, audit: FileAudit, pattern: string)
    ensures Violations(src, audit.(required := [], prohibited := [])) == 0
    ensures Violations(src, audit.(required := audit.required + [pattern]))
         == Violations(src, audit) + if SpelledInCode(src, pattern) then 0 else 1
    ensures Violations(src, audit.(prohibited := audit.prohibited + [pattern]))
         == Violations(src, audit) + if SpelledInCode(src, pattern) then 1 else 0
  {
    hide SpelledInCode;
    assert (audit.required + [pattern])[..|audit.required|] == audit.required;
    assert (audit.prohibited + [pattern])[..|audit.prohibited|] == audit.prohibited;
  }

  /** The structural conditions, on the files themselves. */
  lemma StructureInPlainTerms(tree: Tree, root: string)
    ensures var sign, ecdh := root + "/src/cpu/src/ct_sign.cpp", root + "/src/cpu/src/ecdh.cpp";
            StructuralViolations(tree, root)
            == (if sign in tree && !SpelledInCode(Content(tree, sign), "#include \"secp256k1/fast.hpp\"")
                   && !SpelledInCode(Content(tree, sign), "#include <secp256k1/fast.hpp>") then 0 else 1)
               + (if ecdh in tree && Contains(Content(tree, ecdh), "secp256k1/ct/point.hpp") then 0 else 1)
               + (if sign in tree && Contains(Content(tree, sign), "detail/secure_erase.hpp") then 0 else 1)
               + (if ecdh in tree && Contains(Content(tree, ecdh), "secure_erase") then 0 else 1)
  {
    hide SpelledInCode, Contains, Content;
  }

  /** The audit's counters and its running check number. */
  class AuditRun {
    const g: Counters
    var checkNum: nat

    constructor ()
      ensures fresh(g) && g.pass == 0 && g.fail == 0 && checkNum == 1
    {
      g := new Counters();
      checkNum := 1;
    }

    /** One file's patterns. A present file adds exactly its violated patterns to the failures
        and the others to the passes; an absent one touches neither and reports a skip. */
    method RunFileAudit(tree: Tree, root: string, audit: FileAudit) returns (rc: int)
      requires forall p <- audit.prohibited :: p != ""
      modifies this, g
      ensures PathOf(root, audit) !in tree ==>
                && rc == 77 && checkNum == old(checkNum) + 1
                && g.pass == old(g.pass) && g.fail == old(g.fail)
      ensures PathOf(root, audit) in tree ==>
                && rc == Violations(Content(tree, PathOf(root, audit)), audit)
                && g.fail == old(g.fail) + rc
                && g.pass + g.fail == old(g.pass) + old(g.fail) + |audit.required| + |audit.prohibited|
                && checkNum == old(checkNum) + |audit.required| + |audit.prohibited|
    {
      hide SpelledInCode, CodeText, Contains, Find;
      var failures := 0;
      var path := PathOf(root, audit);
      if path !in tree {
        checkNum := checkNum + 1;
        return ADVISORY_SKIP_CODE;
      }
      ghost var src := Content(tree, path);
      var code := StripComments(Content(tree, path));
      var required, prohibited := audit.required, audit.prohibited;

      for i := 0 to |required|
        invariant failures == MissingRequired(src, required[..i])
        invariant g.fail == old(g.fail) + failures && g.pass + g.fail == old(g.pass) + old(g.fail) + i
        invariant checkNum == old(checkNum) + i
      {
        FoundExactlyWhenSpelledInCode(src, required[i]);
        assert required[..i + 1][..i] == required[..i];
        g.Check(Contains(code, required[i]));
        if !Contains(code, required[i]) { failures := failures + 1; }
        checkNum := checkNum + 1;
      }
      assert required[..|required|] == required;

      for i := 0 to |prohibited|
        invariant failures == MissingRequired(src, required) + PresentProhibited(src, prohibited[..i])
        invariant g.fail == old(g.fail) + failures && g.pass + g.fail == old(g.pass) + old(g.fail) + |required| + i
        invariant checkNum == old(checkNum) + |required| + i
      {
        assert prohibited[i] in prohibited;
        var occ := CountOccurrences(code, prohibited[i]);
        FoundExactlyWhenSpelledInCode(src, prohibited[i]);
        assert prohibited[..i + 1][..i] == prohibited[..i];
        g.Check(occ == 0);
        if occ != 0 { failures := failures + 1; }
        checkNum := checkNum + 1;
      }
      assert prohibited[..|prohibited|] == prohibited;
      return failures;
    }

    /** A structural check of one file: an absent file counts as a failure. */
    method StructuralCheck(present: bool, cond: bool)
      modifies this, g
      ensures g.fail == old(g.fail) + Bit(!present || !cond)
      ensures g.pass == old(g.pass) + Bit(present && cond)
      ensures checkNum == old(checkNum) + 1
    {
      if present {
        g.Check(cond);
        checkNum := checkNum + 1;
      } else {
        checkNum := checkNum + 1;
        g.fail := g.fail + 1;
      }
    }

    method RunStructuralChecks(tree: Tree, root: string)
      modifies this, g
      ensures g.fail == old(g.fail) + StructuralViolations(tree, root)
      ensures g.pass + g.fail == old(g.pass) + old(g.fail) + 4
      ensures checkNum == old(checkNum) + 4
    {
      var signPath, ecdhPath := root + CT_SIGN, root + ECDH;
      var sign := if signPath in tree then Content(tree, signPath) else "";
      var ecdh := if ecdhPath in tree then Content(tree, ecdhPath) else "";

      var code := StripComments(sign);
      var includesFast := Contains(code, "#include \"secp256k1/fast.hpp\"")
                          || Contains(code, "#include <secp256k1/fast.hpp>");
      FoundExactlyWhenSpelledInCode(sign, "#include \"secp256k1/fast.hpp\"");
      FoundExactlyWhenSpelledInCode(sign, "#include <secp256k1/fast.hpp>");
      StructuralCheck(signPath in tree, !includesFast);
      StructuralCheck(ecdhPath in tree, Contains(ecdh, "secp256k1/ct/point.hpp"));
      StructuralCheck(signPath in tree, Contains(sign, "detail/secure_erase.hpp"));
      StructuralCheck(ecdhPath in tree, Contains(ecdh, "secure_erase"));
    }

    /** The entry point. A file that violates exactly 77 patterns returns the skip code from
        its own audit, yet the result never takes it for a skip: a skip is reported only when a
        file is absent and nothing is violated. */
    method Run(tree: Tree, audits: seq<FileAudit>) returns (rc: int)
      requires forall a <- audits :: forall p <- a.prohibited :: p != ""
      modifies this, g
      ensures SourceRoot(tree) == "" ==> rc == 77
      ensures SourceRoot(tree) != "" ==>
                var root := SourceRoot(tree);
                var violated := StructuralViolations(tree, root) > 0 || SomeFileViolates(tree, root, audits);
                && (rc == 1 <==> violated)
                && (rc == 77 <==> !violated && SomeFileAbsent(tree, root, audits))
                && (rc == 0 <==> !violated && !SomeFileAbsent(tree, root, audits))
    {
      g.pass, g.fail := 0, 0;
      var root := FindSourceRoot(tree);
      if root == "" {
        return ADVISORY_SKIP_CODE;
      }
      checkNum := 1;
      var anySkip := false;
      for i := 0 to |audits|
        invariant g.fail > 0 <==> SomeFileViolates(tree, root, audits[..i])
        invariant SomeFileAbsent(tree, root, audits[..i]) ==> anySkip
        invariant anySkip && g.fail == 0 ==> SomeFileAbsent(tree, root, audits[..i])
      {
        OneMoreFile(tree, root, audits, i);
        var code := RunFileAudit(tree, root, audits[i]);
        if code == ADVISORY_SKIP_CODE { anySkip := true; }
      }
      assert audits[..|audits|] == audits;
      RunStructuralChecks(tree, root);
      if g.fail == 0 && anySkip {
        return ADVISORY_SKIP_CODE;
      }
      return if g.fail > 0 then 1 else 0;
    }
  }

  lemma OneMoreFile(tree: Tree, root: string, audits: seq<FileAudit>, i: nat)
    requires i < |audits|
    ensures SomeFileAbsent(tree, root, audits[..i + 1])
            <==> SomeFileAbsent(tree, root, audits[..i]) || PathOf(root, audits[i]) !in tree
    ensures SomeFileViolates(tree, root, audits[..i + 1])
            <==> SomeFileViolates(tree, root, audits[..i])
                 || (PathOf(root, audits[i]) in tree
                     && Violations(Content(tree, PathOf(root, audits[i])), audits[i]) > 0)
  {
    assert audits[..i + 1] == audits[..i] + [audits[i]];
  }

  /** The first candidate directory that holds the sentinel file, or "". */
  function SourceRoot(tree: Tree): string {
    FirstRoot(tree, ROOT_CANDIDATES)
  }

  function FirstRoot(tree: Tree, candidates: seq<string>): string {
    if candidates == [] then ""
    else if candidates[0] + CT_SIGN in tree then candidates[0]
    else FirstRoot(tree, candidates[1..])
  }

  /** A root is the first of the candidates with the sentinel file; there is none exactly when no
      candidate has it. */
  lemma RootInPlainTerms(tree: Tree)
    ensures var candidates := [
              ".", "..", "../..", "../../..", "../libs/UltrafastSecp256k1", "../../libs/UltrafastSecp256k1",
              "../../../libs/UltrafastSecp256k1", "libs/UltrafastSecp256k1"];
            || (SourceRoot(tree) == "" && forall c <- candidates :: c + "/src/cpu/src/ct_sign.cpp" !in tree)
            || exists i :: 0 <= i < 8
                 && SourceRoot(tree) == candidates[i] && candidates[i] + "/src/cpu/src/ct_sign.cpp" in tree
                 && forall j :: 0 <= j < i ==> candidates[j] + "/src/cpu/src/ct_sign.cpp" !in tree
  {
    FirstRootIsFirst(tree, ROOT_CANDIDATES);
    hide FirstRoot;
  }

  lemma {:induction false} FirstRootIsFirst(tree: Tree, candidates: seq<string>)
    ensures || (FirstRoot(tree, candidates) == "" && forall c <- candidates :: c + CT_SIGN !in tree)
            || exists i :: 0 <= i < |candidates|
                 && FirstRoot(tree, candidates) == candidates[i] && candidates[i] + CT_SIGN in tree
                 && forall j :: 0 <= j < i ==> candidates[j] + CT_SIGN !in tree
  {
    if candidates != [] {
      var rest := candidates[1..];
      FirstRootIsFirst(tree, rest);
      if candidates[0] + CT_SIGN !in tree {
        if forall c <- rest :: c + CT_SIGN !in tree {
          assert candidates == [candidates[0]] + rest;
        } else {
          var i :| 0 <= i < |rest| && FirstRoot(tree, rest) == rest[i] && rest[i] + CT_SIGN in tree
                   && forall j :: 0 <= j < i ==> rest[j] + CT_SIGN !in tree;
          assert candidates[i + 1] == rest[i];
          forall j | 0 <= j < i + 1 ensures candidates[j] + CT_SIGN !in tree {
            if j > 0 { assert candidates[j] == rest[j - 1]; }
          }
        }
      }
    }
  }

  method FindSourceRoot(tree: Tree) returns (root: string)
    ensures root == SourceRoot(tree)
  {
    for i := 0 to |ROOT_CANDIDATES|
      invariant SourceRoot(tree) == FirstRoot(tree, ROOT_CANDIDATES[i..])
    {
      if ROOT_CANDIDATES[i] + CT_SIGN in tree {
        return ROOT_CANDIDATES[i];
      }
    }
    return "";
  }

  /** A prohibited call that lies wholly outside comments makes its file violate, if no literal
      before its end looks like the start of a comment. */
  lemma ProhibitedCodeIsAViolation(
    tree: Tree, root: string, audits: seq<FileAudit>, a: FileAudit, pattern: string, p: nat)
    requires a in audits && pattern in a.prohibited && PathOf(root, a) in tree
    requires OccursAt(Content(tree, PathOf(root, a)), pattern, p)
    requires forall q :: p <= q < p + |pattern| ==> !InComment(Content(tree, PathOf(root, a)), q)
    requires LiteralsOpenNoComment(Content(tree, PathOf(root, a)), p + |pattern|)
    ensures SomeFileViolates(tree, root, audits)
  {
    hide IsCode, InComment;
    var src := Content(tree, PathOf(root, a));
    StripsTheCommentsExactly(src, p + |pattern|);
    PatternInCodeIsFound(src, pattern, p);
    FoundExactlyWhenSpelledInCode(src, pattern);
    PresentCounts(src, a.prohibited, pattern);
  }

  /** The last three structural checks search the raw text, so a pattern that stands only in a
      comment satisfies them: here the last one, with no erasing call in the code. */
  lemma CommentSatisfiesTheEraseCheck(root: string)
    ensures var path, text := root + ECDH, "// secure_erase";
            var tree := map[path := text];
            Contains(Content(tree, path), "secure_erase") && !SpelledInCode(Content(tree, path), "secure_erase")
  {
    var text, pattern := "// secure_erase", "secure_erase";
    assert text[..2] == "//";
    assert text[3..3 + |pattern|] == pattern;
    assert OccursAt(text, pattern, 3);
    LineCommentIsStripped(text);
    FoundExactlyWhenSpelledInCode(text, pattern);
  }

  lemma {:induction false} PresentCounts(src: string, prohibited: seq<string>, pattern: string)
    requires pattern in prohibited && SpelledInCode(src, pattern)
    ensures PresentProhibited(src, prohibited) > 0
  {
    var n := |prohibited| - 1;
    if prohibited[n] != pattern {
      PresentCounts(src, prohibited[..n], pattern);
    }
  }
}
