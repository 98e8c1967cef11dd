/** Removal of spam packages by name (data/convert.py:42-74): npm packages
    whose name has a listed prefix or suffix or is `ghost-` followed by digits,
    and Packagist packages whose name contains `/watch-`. Cargo is not
    filtered. */
module SpamFilter {
  import opened Seqs
  import opened Strings
  import opened Releases

  datatype Ecosystem = Cargo | Packagist | NPM

  const NpmExcludedPrefixes: seq<string> :=
    ["@ryancavanaugh/pkg", "all-packages-", "cool-", "neat-", "wowdude-", "npmdoc-", "npmtest-", "npm-ghost-"]

  const NpmExcludedSuffixes: seq<string> := ["-cdn"]

  const PackagistExcludedSubwords: seq<string> := ["/watch-"]

  const GhostPrefix: string := "ghost-"

  /** `\d`, restricted to ASCII digits. */
  predicate IsDigit(c: char) {
    '0' <= c <= '9'
  }

  predicate AllDigits(s: string) {
    forall i :: 0 <= i < |s| ==> IsDigit(s[i])
  }

  /** Length of the longest run of digits `s` starts with (what `\d+` consumes). */
  function DigitRun(s: string): (n: nat)
    ensures n <= |s|
    ensures AllDigits(s[..n])
    ensures n < |s| ==> !IsDigit(s[n])
  {
    if |s| == 0 || !IsDigit(s[0]) then 0
    else
      var n := 1 + DigitRun(s[1..]);
      assert forall i :: 1 <= i < n ==> s[..n][i] == s[1..][..n - 1][i - 1];
      n
  }

  /** `re.match(r'^ghost-\d+$', name)`: after `ghost-`, a non-empty run of
      digits must reach the end of the name, or stop just before a final
      newline, where Python's `$` also matches. */
  predicate MatchesGhostPattern(name: string) {
    && StartsWith(name, GhostPrefix)
    && var rest := name[|GhostPrefix|..];
       var n := DigitRun(rest);
       n >= 1 && (n == |rest| || (n + 1 == |rest| && rest[n] == '\n'))
  }

  /** The names the pattern describes: `ghost-`, one or more digits, and
      optionally one trailing newline. */
  ghost predicate GhostShaped(name: string) {
    exists digits :: |digits| >= 1 && AllDigits(digits) &&
      (name == GhostPrefix + digits || name == GhostPrefix + digits + "\n")
  }

  /** `\d+` consumes exactly the digits in front of a non-digit. */
  lemma {:induction false} DigitRunOfDigits(d: string, t: string)
    requires AllDigits(d)
    requires |t| == 0 || !IsDigit(t[0])
    ensures DigitRun(d + t) == |d|
  {
    if |d| > 0 {
      assert (d + t)[1..] == d[1..] + t;
      DigitRunOfDigits(d[1..], t);
    } else {
      assert d + t == t;
    }
  }

  lemma MatchesGhostPatternMeansShape(name: string)
    ensures MatchesGhostPattern(name) <==> GhostShaped(name)
  {
    if MatchesGhostPattern(name) {
      MatchIsGhostShaped(name);
    }
    if GhostShaped(name) {
      var digits :| |digits| >= 1 && AllDigits(digits) &&
        (name == GhostPrefix + digits || name == GhostPrefix + digits + "\n");
      GhostShapeMatches(name, digits);
    }
  }

  /** A name the pattern matches has the shape. */
  lemma MatchIsGhostShaped(name: string)
    requires MatchesGhostPattern(name)
    ensures GhostShaped(name)
  {
    var rest := name[|GhostPrefix|..];
    var n := DigitRun(rest);
    var digits := rest[..n];
    assert name == GhostPrefix + rest;
    if n == |rest| {
      assert rest == digits;
    } else {
      assert rest == digits + "\n";
    }
  }

  /** A name of the shape is matched by the pattern. */
  lemma GhostShapeMatches(name: string, digits: string)
    requires |digits| >= 1 && AllDigits(digits)
    requires name == GhostPrefix + digits || name == GhostPrefix + digits + "\n"
    ensures MatchesGhostPattern(name)
  {
    assert StartsWith(name, GhostPrefix);
    var rest := name[|GhostPrefix|..];
    if name == GhostPrefix + digits {
      assert rest == digits + "";
      DigitRunOfDigits(digits, "");
    } else {
      assert rest == digits + "\n";
      DigitRunOfDigits(digits, "\n");
    }
  }

  /** Lines 44-53: the npm name tests. */
  predicate IsNpmSpam(name: string) {
    || (exists p | p in NpmExcludedPrefixes :: StartsWith(name, p))
    || (exists q | q in NpmExcludedSuffixes :: EndsWith(name, q))
    || MatchesGhostPattern(name)
  }

  /** Lines 62-69: the Packagist name test. */
  predicate IsPackagistSpam(name: string) {
    exists w | w in PackagistExcludedSubwords :: ContainsWord(name, w)
  }

  predicate IsSpam(eco: Ecosystem, name: string) {
    match eco
    case NPM => IsNpmSpam(name)
    case Packagist => IsPackagistSpam(name)
    case Cargo => false
  }

  /** An npm package is spam exactly when its name is a listed prefix followed
      by anything, anything followed by `-cdn`, or `ghost-` followed by digits. */
  lemma NpmSpamMeansShape(name: string)
    ensures IsSpam(NPM, name) <==>
      || (exists p, rest :: p in NpmExcludedPrefixes && name == p + rest)
      || (exists head :: name == head + "-cdn")
      || GhostShaped(name)
  {
    MatchesGhostPatternMeansShape(name);
    NpmPrefixMeansShape(name);
    NpmSuffixMeansShape(name);
  }

  lemma NpmPrefixMeansShape(name: string)
    ensures (exists p | p in NpmExcludedPrefixes :: StartsWith(name, p)) <==>
      (exists p, rest :: p in NpmExcludedPrefixes && name == p + rest)
  {
    forall p | p in NpmExcludedPrefixes {
      StartsWithMeansPrefix(name, p);
    }
    if exists p, rest :: p in NpmExcludedPrefixes && name == p + rest {
      var p, rest :| p in NpmExcludedPrefixes && name == p + rest;
      assert StartsWith(name, p);
    }
  }

  lemma NpmSuffixMeansShape(name: string)
    ensures (exists q | q in NpmExcludedSuffixes :: EndsWith(name, q)) <==>
      (exists head :: name == head + "-cdn")
  {
    EndsWithMeansSuffix(name, "-cdn");
    assert NpmExcludedSuffixes == ["-cdn"];
  }

  /** A Packagist package is spam exactly when `/watch-` occurs in its name. */
  lemma PackagistSpamMeansWatch(name: string)
    ensures IsSpam(Packagist, name) <==> OccursIn("/watch-", name)
  {
    ContainsWordMeansOccurs(name, "/watch-");
  }

  /** The release rows that remain once the spam packages are removed: every
      row of a spam package disappears and every other row is kept, with its
      multiplicity. */
  function DropSpam(eco: Ecosystem, rows: seq<RawRelease>): (r: seq<RawRelease>)
    ensures forall x :: multiset(r)[x] == if IsSpam(eco, x.package) then 0 else multiset(rows)[x]
  {
    Filter(rows, (x: RawRelease) => !IsSpam(eco, x.package))
  }
}
