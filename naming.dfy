/**
 * Names the toolbelt makes up or checks: worksheet names (cleaning and
 * de-duplication), the output file name typed at the prompt, which directory
 * entries count as input files, and a file's base name. Both programs share
 * these definitions.
 */
module Naming {
  import opened Text
  import opened Sequences

  /** Excel's bound on the length of a worksheet name. */
  const MaxSheetName: nat := 31
  /** How much of a name is kept before a `_<counter>` suffix. */
  const SuffixStem: nat := 28

  function Min(a: nat, b: nat): nat { if a <= b then a else b }

  /** The characters `clean_sheet_name` deletes: `[ ] : * ? / \`. */
  predicate IsForbidden(c: char) {
    c == '[' || c == ']' || c == ':' || c == '*' || c == '?' || c == '/' || c == '\\'
  }

  predicate NoForbidden(s: string) {
    forall i :: 0 <= i < |s| ==> !IsForbidden(s[i])
  }

  /** The regular-expression substitution that deletes every forbidden character. */
  function RemoveForbidden(s: string): (r: string)
    ensures NoForbidden(r)
    ensures IsSubsequence(r, s)
    ensures forall c :: !IsForbidden(c) ==> multiset(r)[c] == multiset(s)[c]
  {
    if s == [] then []
    else
      assert s == [s[0]] + s[1..];
      if IsForbidden(s[0]) then RemoveForbidden(s[1..]) else [s[0]] + RemoveForbidden(s[1..])
  }

  lemma {:induction false} RemoveForbiddenKeepsClean(s: string)
    requires NoForbidden(s)
    ensures RemoveForbidden(s) == s
  {
    if s != [] { RemoveForbiddenKeepsClean(s[1..]); }
  }

  /**
   * `clean_sheet_name`: delete the forbidden characters, then keep the first
   * 31 characters of what remains.
   */
  function CleanSheetName(name: string): (r: string)
    ensures |r| <= MaxSheetName
    ensures NoForbidden(r)
    ensures |r| == Min(MaxSheetName, |RemoveForbidden(name)|) && r == RemoveForbidden(name)[..|r|]
  {
    var cleaned := RemoveForbidden(name);
    cleaned[..Min(MaxSheetName, |cleaned|)]
  }

  /** A name that is already legal is left as it is. */
  lemma CleanSheetNameKeepsLegal(name: string)
    requires NoForbidden(name) && |name| <= MaxSheetName
    ensures CleanSheetName(name) == name
  {
    RemoveForbiddenKeepsClean(name);
  }

  /** Cleaning twice is cleaning once. */
  lemma CleanSheetNameIdempotent(name: string)
    ensures CleanSheetName(CleanSheetName(name)) == CleanSheetName(name)
  {
    CleanSheetNameKeepsLegal(CleanSheetName(name));
  }

  /**
   * `get_output_filename` applied to what the user typed: the default when the
   * stripped answer is empty, otherwise the answer with `.xlsx` appended unless
   * it already ends with `.xlsx` in any letter case.
   */
  function OutputFilename(answer: string, defaultName: string): (r: string)
    ensures Strip(answer) == [] ==> r == defaultName
    ensures Strip(answer) != [] ==>
              && EndsWithIgnoringCase(r, ".xlsx")
              && (r == Strip(answer) <==> EndsWithIgnoringCase(Strip(answer), ".xlsx"))
              && (r == Strip(answer) || r == Strip(answer) + ".xlsx")
  {
    var name := Strip(answer);
    if name == [] then defaultName
    else if EndsWithIgnoringCase(name, ".xlsx") then name
    else
      XlsxAppended(name);
      name + ".xlsx"
  }

  lemma XlsxAppended(name: string)
    ensures EndsWithIgnoringCase(name + ".xlsx", ".xlsx")
  {
    LowerAppend(name, ".xlsx");
    assert Lower(".xlsx") == ".xlsx";
    EndsWithAppended(Lower(name), ".xlsx");
  }

  /**
   * Feeding the result back as the answer gives the same name, provided the
   * default is a `.xlsx` name without leading whitespace (as every default in
   * the source is).
   */
  lemma OutputFilenameIdempotent(answer: string, defaultName: string)
    requires EndsWithIgnoringCase(defaultName, ".xlsx") && !IsSpace(defaultName[0])
    ensures OutputFilename(OutputFilename(answer, defaultName), defaultName) == OutputFilename(answer, defaultName)
  {
    var r := OutputFilename(answer, defaultName);
    if Strip(answer) == [] {
      assert r == defaultName;
      assert Lower(r)[|r| - 1] == 'x' && LowerChar(r[|r| - 1]) == 'x';
      StripUntrimmed(r);
    } else {
      TypedNameStripped(answer, defaultName);
    }
    OutputFilenameFixed(r, defaultName);
  }

  /** A name built from a non-blank answer is stripped and ends with `.xlsx`. */
  lemma TypedNameStripped(answer: string, defaultName: string)
    requires Strip(answer) != []
    ensures var r := OutputFilename(answer, defaultName);
            r != [] && Strip(r) == r && EndsWithIgnoringCase(r, ".xlsx")
  {
    var name := Strip(answer);
    var r := OutputFilename(answer, defaultName);
    if EndsWithIgnoringCase(name, ".xlsx") {
      assert r == name;
      StripUntrimmed(name);
    } else {
      assert r == name + ".xlsx";
      assert r[0] == name[0];
      assert r[|r| - 1] == 'x';
      StripUntrimmed(r);
    }
  }

  /** A stripped answer that already ends with `.xlsx` comes back unchanged. */
  lemma OutputFilenameFixed(name: string, defaultName: string)
    requires name != [] && Strip(name) == name && EndsWithIgnoringCase(name, ".xlsx")
    ensures OutputFilename(name, defaultName) == name
  {
  }

  /** The directory filter of the merge modes: `.xlsx` or `.csv` in any case, and not an Excel lock file. */
  predicate IsStackInput(f: string) {
    (EndsWithIgnoringCase(f, ".xlsx") || EndsWithIgnoringCase(f, ".csv")) && !StartsWith(f, "~$")
  }

  /** The directory filter of the regional summary: `.xlsx` in any case, and not an Excel lock file. */
  predicate IsReportInput(f: string) {
    EndsWithIgnoringCase(f, ".xlsx") && !StartsWith(f, "~$")
  }

  /** The listing filtered for the merge modes, in listing order. */
  function StackInputs(listing: seq<string>): (r: seq<string>)
    ensures forall f :: f in r <==> f in listing && IsStackInput(f)
    ensures IsSubsequence(r, listing)
  {
    Filter(listing, IsStackInput)
  }

  /** The listing filtered for the regional summary; every such file is also a merge input. */
  function ReportInputs(listing: seq<string>): (r: seq<string>)
    ensures forall f :: f in r <==> f in listing && IsReportInput(f)
    ensures forall f :: f in r ==> f in StackInputs(listing)
    ensures IsSubsequence(r, listing)
  {
    Filter(listing, IsReportInput)
  }

  predicate IsCsv(f: string) {
    EndsWithIgnoringCase(f, ".csv")
  }

  /** The position of the last `c` in `s`, or -1. */
  function LastIndexOf(s: string, c: char): (r: int)
    ensures -1 <= r < |s|
    ensures r >= 0 ==> s[r] == c && c !in s[r + 1..]
    ensures r == -1 ==> c !in s
  {
    if s == [] then -1
    else if s[|s| - 1] == c then |s| - 1
    else
      var r := LastIndexOf(s[..|s| - 1], c);
      assert s == s[..|s| - 1] + [s[|s| - 1]];
      assert r >= 0 ==> s[r + 1..] == s[..|s| - 1][r + 1..] + [s[|s| - 1]];
      r
  }

  /**
   * `filename.rsplit('.', 1)[0]`: everything before the last dot, or the whole
   * name when it has none.
   */
  function BaseName(f: string): (r: string)
    ensures '.' !in f ==> r == f
    ensures '.' in f ==> |r| < |f| && r == f[..|r|] && f[|r|] == '.' && '.' !in f[|r| + 1..]
  {
    var i := LastIndexOf(f, '.');
    if i < 0 then f else f[..i]
  }

  /** `f"{orig[:28]}_{k}"`, the candidate name for counter `k`. */
  function Suffixed(orig: string, k: nat): string
  {
    orig[..Min(SuffixStem, |orig|)] + "_" + Decimal(k)
  }

  /** Candidates keep a clean name clean; they fit in 31 characters only while stem and counter are short enough. */
  lemma SuffixedShape(orig: string, k: nat)
    ensures NoForbidden(orig) ==> NoForbidden(Suffixed(orig, k))
    ensures |Suffixed(orig, k)| <= MaxSheetName <==> Min(SuffixStem, |orig|) + |Decimal(k)| <= 30
    ensures k < 100 ==> |Suffixed(orig, k)| <= MaxSheetName
  {
    var r := Suffixed(orig, k);
    var p := Min(SuffixStem, |orig|);
    assert forall i :: p < i < |r| ==> r[i] == Decimal(k)[i - p - 1];
    DecimalLength(k);
  }

  /** Different counters give different candidates. */
  lemma SuffixedInjective(orig: string, a: nat, b: nat)
    requires Suffixed(orig, a) == Suffixed(orig, b)
    ensures a == b
  {
    var n := Min(SuffixStem, |orig|) + 1;
    assert Decimal(a) == Suffixed(orig, a)[n..];
    assert Decimal(b) == Suffixed(orig, b)[n..];
    DecimalInjective(a, b);
  }

  function TakenSet(taken: seq<string>): set<string> {
    set s | s in taken
  }

  /** The candidates for counters 1 to k - 1. */
  function Tried(orig: string, k: nat): set<string> {
    set j: nat | 1 <= j < k :: Suffixed(orig, j)
  }

  lemma TriedGrows(orig: string, taken: seq<string>, k: nat)
    requires k >= 1
    requires forall j :: 1 <= j < k ==> Suffixed(orig, j) in taken
    requires Suffixed(orig, k) in taken
    ensures |TakenSet(taken) - Tried(orig, k + 1)| < |TakenSet(taken) - Tried(orig, k)|
  {
    var c := Suffixed(orig, k);
    assert Tried(orig, k + 1) == Tried(orig, k) + {c};
    assert c !in Tried(orig, k) by {
      if c in Tried(orig, k) {
        var j: nat :| 1 <= j < k && Suffixed(orig, j) == c;
        SuffixedInjective(orig, j, k);
      }
    }
    var rest := TakenSet(taken) - Tried(orig, k);
    assert c in rest;
    assert TakenSet(taken) - Tried(orig, k + 1) == rest - {c};
  }

  /** The smallest counter from k on whose candidate is free. */
  function FirstFree(orig: string, taken: seq<string>, k: nat): (r: nat)
    requires k >= 1
    requires forall j :: 1 <= j < k ==> Suffixed(orig, j) in taken
    ensures k <= r && Suffixed(orig, r) !in taken
    ensures forall j :: 1 <= j < r ==> Suffixed(orig, j) in taken
    decreases Untried(orig, taken, k)
  {
    if Suffixed(orig, k) !in taken then k
    else
      CandidateStep(orig, taken, k);
      assert forall j :: 1 <= j < k + 1 ==> Suffixed(orig, j) in taken;
      var r := FirstFree(orig, taken, k + 1);
      r
  }

  /**
   * The name a sheet is written under: the cleaned name itself when it is
   * free, otherwise the candidate of the smallest free counter. The choice
   * always exists because only finitely many names are taken.
   */
  function UniqueName(orig: string, taken: seq<string>): (r: string)
    ensures r !in taken
    ensures orig !in taken ==> r == orig
    ensures orig in taken ==>
              exists k: nat :: 1 <= k && r == Suffixed(orig, k)
                               && forall j :: 1 <= j < k ==> Suffixed(orig, j) in taken
  {
    if orig !in taken then orig else Suffixed(orig, FirstFree(orig, taken, 1))
  }

  /** A free candidate leaves the measure of `FreeSheetName`'s loop where it was. */
  lemma TriedFree(orig: string, taken: seq<string>, k: nat)
    requires k >= 1 && Suffixed(orig, k) !in taken
    ensures TakenSet(taken) - Tried(orig, k + 1) == TakenSet(taken) - Tried(orig, k)
  {
    assert Tried(orig, k + 1) == Tried(orig, k) + {Suffixed(orig, k)};
  }

  /** The first free counter is the one every smaller counter's candidate is taken below. */
  lemma FirstFreeIsLeast(orig: string, taken: seq<string>, k: nat)
    requires 1 <= k && Suffixed(orig, k) !in taken
    requires forall j :: 1 <= j < k ==> Suffixed(orig, j) in taken
    ensures FirstFree(orig, taken, 1) == k
  {
  }

  /** The taken names that are not among the candidates for counters below k. */
  function Untried(orig: string, taken: seq<string>, k: nat): nat {
    |TakenSet(taken) - Tried(orig, k)|
  }

  /** Trying counter k shrinks the untried taken names exactly when its candidate is taken. */
  lemma CandidateStep(orig: string, taken: seq<string>, k: nat)
    requires k >= 1
    requires forall j :: 1 <= j < k ==> Suffixed(orig, j) in taken
    ensures Suffixed(orig, k) in taken ==> Untried(orig, taken, k + 1) < Untried(orig, taken, k)
    ensures Suffixed(orig, k) !in taken ==> Untried(orig, taken, k + 1) == Untried(orig, taken, k)
  {
    if Suffixed(orig, k) in taken { TriedGrows(orig, taken, k); } else { TriedFree(orig, taken, k); }
  }

  /** The `while final_name in writer.book.sheetnames` loop. */
  method FreeSheetName(orig: string, taken: seq<string>) returns (name: string)
    ensures name == UniqueName(orig, taken)
  {
    name := orig;
    var ctr: nat := 1;
    while name in taken
      invariant ctr >= 1
      invariant name == if ctr == 1 then orig else Suffixed(orig, ctr - 1)
      invariant ctr > 1 ==> orig in taken
      invariant forall j :: 1 <= j < ctr - 1 ==> Suffixed(orig, j) in taken
      decreases Untried(orig, taken, ctr), if name in taken then 1 else 0
    {
      CandidateStep(orig, taken, ctr);
      name := Suffixed(orig, ctr);
      ctr := ctr + 1;
    }
    if ctr > 1 {
      FirstFreeIsLeast(orig, taken, ctr - 1);
    }
  }
}
