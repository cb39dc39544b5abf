/** The parts of Python's built-in `str` and `int` behaviour that the Bergfex
    parser relies on, restricted to what the parser can observe: character
    classes, `in`, `startswith`, `strip`, `lower`, `replace`, `split`, `int()`
    and the maximal runs that `re.findall` returns for a character class. */
module Builtins {

  datatype Option<+T> = None | Some(value: T)

  /** The exceptions that can leave the parser and reach its caller. */
  datatype PyError = ValueError | OverflowError

  /** `c.isspace()`: the characters Python treats as whitespace. */
  predicate IsSpace(c: char) {
    var n := c as int;
    (9 <= n <= 13) || (28 <= n <= 32) || n == 0x85 || n == 0xA0 || n == 0x1680
    || (0x2000 <= n <= 0x200A) || n == 0x2028 || n == 0x2029 || n == 0x202F
    || n == 0x205F || n == 0x3000
  }

  /** An ASCII decimal digit. */
  predicate IsDigit(c: char) {
    '0' <= c <= '9'
  }

  function DigitValue(c: char): nat
    requires IsDigit(c)
  {
    c as int - '0' as int
  }

  predicate NotSpace(c: char) {
    !IsSpace(c)
  }

  /** Length of the longest run of characters satisfying `p` at position `i`. */
  function Run(s: string, i: nat, p: char -> bool): nat
    requires i <= |s|
    decreases |s| - i
  {
    if i < |s| && p(s[i]) then 1 + Run(s, i + 1, p) else 0
  }

  /** The run is maximal: every character in it satisfies `p`, the next does not. */
  lemma {:induction false} RunFacts(s: string, i: nat, p: char -> bool)
    requires i <= |s|
    ensures i + Run(s, i, p) <= |s|
    ensures forall k :: i <= k < i + Run(s, i, p) ==> p(s[k])
    ensures i + Run(s, i, p) < |s| ==> !p(s[i + Run(s, i, p)])
    decreases |s| - i
  {
    if i < |s| && p(s[i]) {
      RunFacts(s, i + 1, p);
    }
  }

  /** The length of the whitespace run at `i`, as `\s*` matches it. */
  function SpaceRun(s: string, i: nat): nat
    requires i <= |s|
  {
    Run(s, i, IsSpace)
  }

  lemma SpaceRunFacts(s: string, i: nat)
    requires i <= |s|
    ensures i + SpaceRun(s, i) <= |s|
    ensures forall k :: i <= k < i + SpaceRun(s, i) ==> IsSpace(s[k])
    ensures i + SpaceRun(s, i) < |s| ==> !IsSpace(s[i + SpaceRun(s, i)])
  {
    RunFacts(s, i, IsSpace);
  }

  /** The number of ASCII digits starting at `i`. */
  function DigitSpan(s: string, i: nat): nat
    requires i <= |s|
  {
    Run(s, i, IsDigit)
  }

  lemma DigitSpanFacts(s: string, i: nat)
    requires i <= |s|
    ensures i + DigitSpan(s, i) <= |s|
    ensures forall k :: i <= k < i + DigitSpan(s, i) ==> IsDigit(s[k])
    ensures i + DigitSpan(s, i) < |s| ==> !IsDigit(s[i + DigitSpan(s, i)])
  {
    RunFacts(s, i, IsDigit);
  }

  /** `sub` occurs in `s` starting at position `i`. */
  predicate OccursAt(s: string, sub: string, i: nat) {
    i + |sub| <= |s| && s[i..i + |sub|] == sub
  }

  /** `s.find(sub, from)`: the leftmost occurrence at or after `from`. */
  function Find(s: string, sub: string, from: nat): Option<nat>
    decreases |s| - from
  {
    if from + |sub| > |s| then None
    else if OccursAt(s, sub, from) then Some(from)
    else Find(s, sub, from + 1)
  }

  /** `find` reports the leftmost occurrence, and None only when there is none. */
  lemma {:induction false} FindLeftmost(s: string, sub: string, from: nat)
    ensures Find(s, sub, from).Some? ==> from <= Find(s, sub, from).value && OccursAt(s, sub, Find(s, sub, from).value)
    ensures Find(s, sub, from).Some? ==> forall k :: from <= k < Find(s, sub, from).value ==> !OccursAt(s, sub, k)
    ensures Find(s, sub, from).None? ==> forall k :: from <= k ==> !OccursAt(s, sub, k)
    decreases |s| - from
  {
    if from + |sub| <= |s| && !OccursAt(s, sub, from) {
      FindLeftmost(s, sub, from + 1);
    }
  }

  /** One character occurs at `k` exactly when `s[k]` is that character. */
  lemma OccursChar(s: string, c: char, k: nat)
    ensures OccursAt(s, [c], k) <==> k < |s| && s[k] == c
  {
    if k < |s| {
      assert s[k..k + 1] == [s[k]];
    }
  }

  /** `s.find(c)` for a single character: its first position, or None. */
  lemma FindChar(s: string, c: char)
    ensures (forall k :: 0 <= k < |s| ==> s[k] != c) ==> Find(s, [c], 0).None?
    ensures forall i :: 0 <= i < |s| && s[i] == c && (forall k :: 0 <= k < i ==> s[k] != c) ==> Find(s, [c], 0) == Some(i)
  {
    FindLeftmost(s, [c], 0);
    forall k: nat
      ensures OccursAt(s, [c], k) <==> k < |s| && s[k] == c
    {
      OccursChar(s, c, k);
    }
  }

  /** The first occurrence is what `find` reports. */
  lemma FindFirst(s: string, sub: string, i: nat)
    requires OccursAt(s, sub, i) && forall k :: 0 <= k < i ==> !OccursAt(s, sub, k)
    ensures Find(s, sub, 0) == Some(i)
  {
    FindLeftmost(s, sub, 0);
  }

  /** `sub in s`. */
  predicate Contains(s: string, sub: string) {
    Find(s, sub, 0).Some?
  }

  lemma ContainsIff(s: string, sub: string)
    ensures Contains(s, sub) <==> exists k :: OccursAt(s, sub, k)
  {
    FindLeftmost(s, sub, 0);
  }

  /** `s.startswith(prefix)`. */
  predicate StartsWith(s: string, prefix: string) {
    OccursAt(s, prefix, 0)
  }

  /** `s.startswith(tuple(prefixes))`. */
  predicate StartsWithAny(s: string, prefixes: seq<string>) {
    exists w :: w in prefixes && StartsWith(s, w)
  }

  /** Number of whitespace characters at the end of `s`. */
  function TrailingSpaces(s: string): nat {
    if s != [] && IsSpace(s[|s| - 1]) then 1 + TrailingSpaces(s[..|s| - 1]) else 0
  }

  lemma {:induction false} TrailingSpacesFacts(s: string)
    ensures TrailingSpaces(s) <= |s|
    ensures forall k :: |s| - TrailingSpaces(s) <= k < |s| ==> IsSpace(s[k])
    ensures TrailingSpaces(s) < |s| ==> !IsSpace(s[|s| - TrailingSpaces(s) - 1])
  {
    if s != [] && IsSpace(s[|s| - 1]) {
      TrailingSpacesFacts(s[..|s| - 1]);
    }
  }

  /** `s.strip()`: the middle of `s` between its leading and trailing whitespace. */
  function Strip(s: string): string {
    SpaceRunFacts(s, 0);
    var t := s[SpaceRun(s, 0)..];
    TrailingSpacesFacts(t);
    t[..|t| - TrailingSpaces(t)]
  }

  /** The strip is a slice of `s` that starts and ends with non-whitespace,
      and only whitespace surrounds it. */
  lemma StripFacts(s: string)
    ensures SpaceRun(s, 0) + |Strip(s)| <= |s|
    ensures Strip(s) == s[SpaceRun(s, 0)..SpaceRun(s, 0) + |Strip(s)|]
    ensures forall k :: 0 <= k < SpaceRun(s, 0) ==> IsSpace(s[k])
    ensures forall k :: SpaceRun(s, 0) + |Strip(s)| <= k < |s| ==> IsSpace(s[k])
    ensures Strip(s) != [] ==> !IsSpace(Strip(s)[0]) && !IsSpace(Strip(s)[|Strip(s)| - 1])
  {
    SpaceRunFacts(s, 0);
    var i := SpaceRun(s, 0);
    var t := s[i..];
    TrailingSpacesFacts(t);
    var r := Strip(s);
    assert forall k :: SpaceRun(s, 0) + |r| <= k < |s| ==> s[k] == t[k - i];
  }

  /** Stripping twice is stripping once. */
  lemma StripIdempotent(s: string)
    ensures Strip(Strip(s)) == Strip(s)
  {
    StripFacts(s);
    StripKeeps(Strip(s));
  }

  /** A string without surrounding whitespace is its own strip. */
  lemma StripKeeps(s: string)
    requires s == [] || (!IsSpace(s[0]) && !IsSpace(s[|s| - 1]))
    ensures Strip(s) == s
  {
    SpaceRunFacts(s, 0);
    assert SpaceRun(s, 0) == 0;
    assert s[0..] == s;
    assert TrailingSpaces(s) == 0;
  }

  /** Strip removes exactly the whitespace around a string that starts and
      ends with non-whitespace. */
  lemma StripSurrounded(l: string, u: string, r: string)
    requires forall k :: 0 <= k < |l| ==> IsSpace(l[k])
    requires forall k :: 0 <= k < |r| ==> IsSpace(r[k])
    requires u == [] || (!IsSpace(u[0]) && !IsSpace(u[|u| - 1]))
    ensures Strip(l + u + r) == u
  {
    var s := l + u + r;
    StripFacts(s);
    SpaceRunFacts(s, 0);
    var i, m := SpaceRun(s, 0), |Strip(s)|;
    if u != [] {
      assert s[|l|] == u[0];
      assert s[|l| + |u| - 1] == u[|u| - 1];
      assert i == |l|;
      assert m == |u|;
      assert s[i..i + m] == u;
    }
  }

  /** A string without whitespace is its own first word. */
  lemma FirstWordWhole(u: string)
    requires u != [] && forall k :: 0 <= k < |u| ==> !IsSpace(u[k])
    ensures FirstWord(u) == Some(u)
  {
    FirstWordFacts(u);
    SpaceRunFacts(u, 0);
    assert !IsSpace(u[0]);
    assert SpaceRun(u, 0) == 0;
    assert FirstWord(u).Some?;
    var w := FirstWord(u).value;
    assert |w| == |u|;
    assert w == u[0..|u|] == u;
  }

  /** `c.lower()` on ASCII letters. */
  function LowerChar(c: char): char {
    if 'A' <= c <= 'Z' then (c as int + 32) as char else c
  }

  /** `s.lower()`, lowering the ASCII letters. */
  function Lower(s: string): string {
    seq(|s|, k requires 0 <= k < |s| => LowerChar(s[k]))
  }

  /** `s.replace(pat, rep)`: every non-overlapping occurrence, from left to right. */
  function ReplaceAll(s: string, pat: string, rep: string): string
    requires pat != []
    decreases |s|
  {
    FindLeftmost(s, pat, 0);
    match Find(s, pat, 0)
    case None => s
    case Some(i) => s[..i] + rep + ReplaceAll(s[i + |pat|..], pat, rep)
  }

  /** Where the pattern does not occur, nothing is replaced. */
  lemma ReplaceAbsent(s: string, pat: string, rep: string)
    requires pat != [] && !Contains(s, pat)
    ensures ReplaceAll(s, pat, rep) == s
  {
  }

  /** Replacing one character by another rewrites exactly the positions that hold it. */
  lemma {:induction false} ReplaceCharAll(s: string, a: char, b: char)
    ensures |ReplaceAll(s, [a], [b])| == |s|
    ensures forall k :: 0 <= k < |s| ==> ReplaceAll(s, [a], [b])[k] == if s[k] == a then b else s[k]
    decreases |s|
  {
    FindLeftmost(s, [a], 0);
    match Find(s, [a], 0)
    case None =>
      forall k | 0 <= k < |s| ensures s[k] != a {
        assert !OccursAt(s, [a], k);
        assert s[k..k + 1] == [s[k]];
      }
    case Some(i) =>
      var rest := s[i + 1..];
      ReplaceCharAll(rest, a, b);
      var r := ReplaceAll(s, [a], [b]);
      assert r == s[..i] + [b] + ReplaceAll(rest, [a], [b]);
      assert s[i..i + 1] == [a];
      forall k | 0 <= k < |s| ensures r[k] == if s[k] == a then b else s[k] {
        if k < i {
          assert !OccursAt(s, [a], k);
          assert s[k..k + 1] == [s[k]];
        } else if k > i {
          assert r[k] == ReplaceAll(rest, [a], [b])[k - i - 1];
          assert rest[k - i - 1] == s[k];
        }
      }
  }

  /** The parts with the separators put back between them: `sep.join(parts)`
      when every separator is `sep`. */
  function Interleave(parts: seq<string>, seps: seq<string>): string
    requires |parts| == |seps| + 1
    decreases |seps|
  {
    if seps == [] then parts[0] else parts[0] + seps[0] + Interleave(parts[1..], seps[1..])
  }

  /** A part and a separator in front of an interleaving. */
  lemma InterleaveFront(h: string, s0: string, ps: seq<string>, ss: seq<string>)
    requires |ps| == |ss| + 1
    ensures Interleave([h] + ps, [s0] + ss) == h + s0 + Interleave(ps, ss)
  {
    assert ([h] + ps)[1..] == ps;
    assert ([s0] + ss)[1..] == ss;
  }

  /** `n` copies of `x`. */
  function Copies(x: string, n: nat): seq<string> {
    seq(n, _ => x)
  }

  /** `s.split(pat)`: the pieces between the non-overlapping occurrences of
      `pat`, from left to right. */
  function Pieces(s: string, pat: string): seq<string>
    requires pat != []
    decreases |s|
  {
    FindLeftmost(s, pat, 0);
    match Find(s, pat, 0)
    case None => [s]
    case Some(i) => [s[..i]] + Pieces(s[i + |pat|..], pat)
  }

  /** `pat.join(s.split(pat)) == s`, and `s.replace(pat, rep)` is
      `rep.join(s.split(pat))`. */
  lemma PiecesRejoin(s: string, pat: string, rep: string)
    requires pat != []
    ensures |Pieces(s, pat)| >= 1
    ensures s == Interleave(Pieces(s, pat), Copies(pat, |Pieces(s, pat)| - 1))
    ensures ReplaceAll(s, pat, rep) == Interleave(Pieces(s, pat), Copies(rep, |Pieces(s, pat)| - 1))
  {
    PiecesJoin(s, pat);
    PiecesReplace(s, pat, rep);
  }

  /** The pieces with the pattern put back between them give the text again. */
  lemma {:induction false} PiecesJoin(s: string, pat: string)
    requires pat != []
    ensures |Pieces(s, pat)| >= 1
    ensures s == Interleave(Pieces(s, pat), Copies(pat, |Pieces(s, pat)| - 1))
    decreases |s|
  {
    FindLeftmost(s, pat, 0);
    match Find(s, pat, 0)
    case None =>
    case Some(i) =>
      var head, rest := s[..i], s[i + |pat|..];
      PiecesJoin(rest, pat);
      var ps := Pieces(rest, pat);
      assert Pieces(s, pat) == [head] + ps;
      InterleaveCons(head, ps, pat);
      assert s == head + pat + rest by {
        assert s[i..i + |pat|] == pat;
      }
  }

  /** The replacement put between the pieces is what `replace` builds. */
  lemma {:induction false} PiecesReplace(s: string, pat: string, rep: string)
    requires pat != []
    ensures |Pieces(s, pat)| >= 1
    ensures ReplaceAll(s, pat, rep) == Interleave(Pieces(s, pat), Copies(rep, |Pieces(s, pat)| - 1))
    decreases |s|
  {
    FindLeftmost(s, pat, 0);
    match Find(s, pat, 0)
    case None =>
    case Some(i) =>
      var head, rest := s[..i], s[i + |pat|..];
      PiecesReplace(rest, pat, rep);
      var ps := Pieces(rest, pat);
      assert Pieces(s, pat) == [head] + ps;
      assert ReplaceAll(s, pat, rep) == head + rep + ReplaceAll(rest, pat, rep);
      InterleaveCons(head, ps, rep);
  }

  /** No piece of `s.split(pat)` holds `pat`. */
  lemma {:induction false} PiecesFree(s: string, pat: string)
    requires pat != []
    ensures forall k :: 0 <= k < |Pieces(s, pat)| ==> !Contains(Pieces(s, pat)[k], pat)
    decreases |s|
  {
    FindLeftmost(s, pat, 0);
    match Find(s, pat, 0)
    case None =>
      ContainsIff(s, pat);
    case Some(i) =>
      var rest := s[i + |pat|..];
      PiecesFree(rest, pat);
      var all, ps := Pieces(s, pat), Pieces(rest, pat);
      assert all == [s[..i]] + ps;
      HeadFree(s, pat, i);
      assert forall k :: 1 <= k < |all| ==> all[k] == ps[k - 1];
  }

  /** Joining a further part in front adds it and one separator. */
  lemma InterleaveCons(h: string, ps: seq<string>, x: string)
    requires |ps| >= 1
    ensures Interleave([h] + ps, Copies(x, |ps|)) == h + x + Interleave(ps, Copies(x, |ps| - 1))
  {
    assert Copies(x, |ps|) == [x] + Copies(x, |ps| - 1);
    InterleaveFront(h, x, ps, Copies(x, |ps| - 1));
  }

  /** The text before the leftmost occurrence holds none. */
  lemma HeadFree(s: string, pat: string, i: nat)
    requires pat != [] && i <= |s| && forall k :: 0 <= k < i ==> !OccursAt(s, pat, k)
    ensures !Contains(s[..i], pat)
  {
    var head := s[..i];
    ContainsIff(head, pat);
    forall k: nat | OccursAt(head, pat, k)
      ensures false
    {
      assert head[k..k + |pat|] == s[k..k + |pat|];
      assert OccursAt(s, pat, k);
    }
  }

  /** Removing a pattern can bring a new occurrence of it together:
      `"ccmm".replace("cm", "")` is `"cm"`. */
  lemma ReplaceMayRejoin()
    ensures ReplaceAll("ccmm", "cm", "") == "cm"
  {
    var s := "ccmm";
    assert s[0..2] == "cc" && s[1..3] == "cm";
    assert Find(s, "cm", 0) == Some(1);
    assert s[3..] == "m";
    assert Find("m", "cm", 0) == None;
  }

  /** `s.split()[0]`: the first whitespace-separated word, or None where Python
      raises IndexError because `s` holds no word. */
  function FirstWord(s: string): Option<string> {
    SpaceRunFacts(s, 0);
    var i := SpaceRun(s, 0);
    if i == |s| then None
    else
      RunFacts(s, i, NotSpace);
      Some(s[i..i + Run(s, i, NotSpace)])
  }

  /** The first word is the maximal non-blank slice after the leading blanks;
      there is none exactly when `s` is all whitespace. */
  lemma FirstWordFacts(s: string)
    ensures FirstWord(s).None? <==> forall k :: 0 <= k < |s| ==> IsSpace(s[k])
    ensures FirstWord(s).Some? ==>
              var w := FirstWord(s).value;
              && w != [] && (forall k :: 0 <= k < |w| ==> !IsSpace(w[k]))
              && SpaceRun(s, 0) + |w| <= |s| && w == s[SpaceRun(s, 0)..SpaceRun(s, 0) + |w|]
              && (SpaceRun(s, 0) + |w| < |s| ==> IsSpace(s[SpaceRun(s, 0) + |w|]))
  {
    SpaceRunFacts(s, 0);
    var i := SpaceRun(s, 0);
    if i < |s| {
      RunFacts(s, i, NotSpace);
      var w := FirstWord(s).value;
      assert forall k :: 0 <= k < |w| ==> w[k] == s[i + k];
    }
  }

  /** A word after blanks, ended by a blank or by the end of the text, is the first word. */
  lemma FirstWordOf(l: string, u: string, r: string)
    requires forall k :: 0 <= k < |l| ==> IsSpace(l[k])
    requires u != [] && forall k :: 0 <= k < |u| ==> !IsSpace(u[k])
    requires r == [] || IsSpace(r[0])
    ensures FirstWord(l + u + r) == Some(u)
  {
    var s := l + u + r;
    SpaceRunFacts(s, 0);
    assert s[|l|] == u[0];
    assert forall k :: 0 <= k < |l| ==> s[k] == l[k];
    assert SpaceRun(s, 0) == |l|;
    FirstWordFacts(s);
    var w := FirstWord(s).value;
    assert forall k :: 0 <= k < |u| ==> s[|l| + k] == u[k];
    assert |l| + |u| < |s| ==> s[|l| + |u|] == r[0];
    assert w == s[|l|..|l| + |u|] == u;
  }

  /** `s.strip().split()[0] == s.split()[0]`: splitting on whitespace ignores the outer blanks. */
  lemma StripFirstWord(s: string)
    ensures FirstWord(Strip(s)) == FirstWord(s)
  {
    if Strip(s) == [] {
      StripBlank(s);
    } else {
      StripWord(s);
    }
  }

  /** A text that strips to nothing holds no word. */
  lemma StripBlank(s: string)
    requires Strip(s) == []
    ensures FirstWord(s).None? && FirstWord(Strip(s)).None?
  {
    StripFacts(s);
    FirstWordFacts(s);
    assert forall k :: 0 <= k < |s| ==> IsSpace(s[k]);
    FirstWordFacts([]);
  }

  /** The first word of the strip is the first word of the text. */
  lemma StripWord(s: string)
    requires Strip(s) != []
    ensures FirstWord(Strip(s)) == FirstWord(s)
  {
    StripFacts(s);
    var a, t := SpaceRun(s, 0), Strip(s);
    var b := a + |t|;
    SpaceRunFacts(s, 0);
    SpaceRunFacts(t, 0);
    assert SpaceRun(t, 0) == 0;
    RunInSlice(s, a, b, 0, NotSpace);
    RunFacts(t, 0, NotSpace);
    var n := Run(t, 0, NotSpace);
    assert FirstWord(t) == Some(t[0..n]);
    assert FirstWord(s) == Some(s[a..a + n]);
    assert t[0..n] == s[a..a + n];
  }

  /** A run inside a slice that ends where the run would end anyway is the same run. */
  lemma {:induction false} RunInSlice(s: string, a: nat, b: nat, i: nat, p: char -> bool)
    requires a + i <= b <= |s|
    requires b < |s| ==> !p(s[b])
    ensures Run(s[a..b], i, p) == Run(s, a + i, p)
    decreases b - a - i
  {
    if a + i < b {
      assert s[a..b][i] == s[a + i];
      if p(s[a + i]) {
        RunInSlice(s, a, b, i + 1, p);
      }
    }
  }

  /** The value of a string of ASCII digits, most significant first. */
  function DecimalValue(u: string): nat
    requires forall k :: 0 <= k < |u| ==> IsDigit(u[k])
  {
    if u == [] then 0 else 10 * DecimalValue(u[..|u| - 1]) + DigitValue(u[|u| - 1])
  }

  /** The body of a Python integer literal: ASCII digits, with single
      underscores allowed between two digits. */
  function IntBody(u: string): Option<nat>
    decreases |u|
  {
    if u == [] || !IsDigit(u[|u| - 1]) then None
    else
      var init := u[..|u| - 1];
      var d := DigitValue(u[|u| - 1]);
      if init == [] then Some(d)
      else if IsDigit(init[|init| - 1]) then
        match IntBody(init)
        case Some(v) => Some(10 * v + d)
        case None => None
      else if init[|init| - 1] == '_' then
        match IntBody(init[..|init| - 1])
        case Some(v) => Some(10 * v + d)
        case None => None
      else None
  }

  /** A plain digit string is a literal worth its decimal value; every
      literal starts and ends with a digit. */
  lemma {:induction false} IntBodyFacts(u: string)
    ensures (u != [] && forall k :: 0 <= k < |u| ==> IsDigit(u[k])) ==> IntBody(u) == Some(DecimalValue(u))
    ensures IntBody(u).Some? ==> u != [] && IsDigit(u[0]) && IsDigit(u[|u| - 1])
    decreases |u|
  {
    if u != [] && IsDigit(u[|u| - 1]) {
      var init := u[..|u| - 1];
      if init != [] {
        if IsDigit(init[|init| - 1]) {
          IntBodyFacts(init);
          assert init[0] == u[0];
        } else if init[|init| - 1] == '_' {
          IntBodyFacts(init[..|init| - 1]);
          if IntBody(u).Some? {
            assert init[..|init| - 1][0] == u[0];
          }
        }
      }
    }
  }

  /** `int(t)` in base 10: surrounding whitespace, an optional sign and an
      integer body; None where Python raises ValueError. */
  function PyInt(t: string): Option<int> {
    var u := Strip(t);
    if u != [] && (u[0] == '+' || u[0] == '-') then
      match IntBody(u[1..])
      case None => None
      case Some(v) => Some(if u[0] == '-' then -(v as int) else v as int)
    else
      match IntBody(u)
      case None => None
      case Some(v) => Some(v as int)
  }

  /** `int()` accepts a plain digit string at its decimal value, and rejects
      a string holding nothing but whitespace. */
  lemma PyIntFacts(t: string)
    ensures PyInt(t).Some? ==> Strip(t) != []
    ensures (t != [] && forall k :: 0 <= k < |t| ==> IsDigit(t[k])) ==> PyInt(t) == Some(DecimalValue(t))
  {
    if t != [] && forall k :: 0 <= k < |t| ==> IsDigit(t[k]) {
      StripKeeps(t);
      IntBodyFacts(t);
    }
  }

  /** `str(n)` for a natural number. */
  function Decimal(n: nat): string {
    var d := [(n % 10 + '0' as int) as char];
    if n < 10 then d else Decimal(n / 10) + d
  }

  predicate AllDigits(u: string) {
    forall k :: 0 <= k < |u| ==> IsDigit(u[k])
  }

  /** Reading back a rendered number gives the number: `int(str(n)) == n`. */
  lemma {:induction false} DecimalRoundTrip(n: nat)
    ensures Decimal(n) != [] && AllDigits(Decimal(n)) && DecimalValue(Decimal(n)) == n
    ensures PyInt(Decimal(n)) == Some(n)
  {
    var r := Decimal(n);
    if n >= 10 {
      DecimalRoundTrip(n / 10);
      assert r[..|r| - 1] == Decimal(n / 10);
    }
    PyIntFacts(r);
  }

  /** The maximal runs of characters satisfying `p`, left to right: what
      `re.findall` returns for the pattern `[class]+`. */
  function Runs(s: string, p: char -> bool): seq<string>
    decreases |s|
  {
    RunFacts(s, 0, c => !p(c));
    var i := Run(s, 0, c => !p(c));
    if i == |s| then []
    else
      RunFacts(s, i, p);
      var n := Run(s, i, p);
      [s[i..i + n]] + Runs(s[i + n..], p)
  }

  /** Every run is non-empty and made of characters satisfying `p`. */
  lemma {:induction false} RunsFacts(s: string, p: char -> bool)
    ensures forall k :: 0 <= k < |Runs(s, p)| ==> Runs(s, p)[k] != [] && forall j :: 0 <= j < |Runs(s, p)[k]| ==> p(Runs(s, p)[k][j])
    decreases |s|
  {
    RunFacts(s, 0, c => !p(c));
    var i := Run(s, 0, c => !p(c));
    if i < |s| {
      RunFacts(s, i, p);
      var n := Run(s, i, p);
      var w := s[i..i + n];
      assert forall j :: 0 <= j < |w| ==> w[j] == s[i + j];
      RunsFacts(s[i + n..], p);
      assert Runs(s, p) == [w] + Runs(s[i + n..], p);
    }
  }

  /** A string with no character satisfying `p` has no runs. */
  lemma RunsNone(g: string, p: char -> bool)
    requires forall k :: 0 <= k < |g| ==> !p(g[k])
    ensures Runs(g, p) == []
  {
    RunFacts(g, 0, c => !p(c));
  }

  /** A gap, then a run `u`, then a rest that does not continue it: `u` is
      the first run and the rest supplies the others. */
  lemma RunsCons(g: string, u: string, rest: string, p: char -> bool)
    requires forall k :: 0 <= k < |g| ==> !p(g[k])
    requires u != [] && forall k :: 0 <= k < |u| ==> p(u[k])
    requires rest == [] || !p(rest[0])
    ensures Runs(g + u + rest, p) == [u] + Runs(rest, p)
  {
    var s := g + u + rest;
    var m := |g| + |u|;
    assert forall k :: 0 <= k < |g| ==> s[k] == g[k];
    assert s[|g|] == u[0];
    RunIs(s, 0, |g|, c => !p(c));
    assert forall k :: |g| <= k < m ==> s[k] == u[k - |g|];
    assert m < |s| ==> s[m] == rest[0];
    RunIs(s, |g|, |u|, p);
    assert s[|g|..m] == u;
    assert s[m..] == rest;
  }

  /** A stretch of `n` characters satisfying `p`, followed by one that does
      not or by the end, is the run at `i`. */
  lemma {:induction false} RunIs(s: string, i: nat, n: nat, p: char -> bool)
    requires i + n <= |s|
    requires forall k :: i <= k < i + n ==> p(s[k])
    requires i + n < |s| ==> !p(s[i + n])
    ensures Run(s, i, p) == n
    decreases n
  {
    if n > 0 {
      RunIs(s, i + 1, n - 1, p);
    }
  }

  /** A string that starts with a run: that run, then the rest's runs. */
  lemma RunsFirst(u: string, rest: string, p: char -> bool)
    requires u != [] && forall k :: 0 <= k < |u| ==> p(u[k])
    requires rest == [] || !p(rest[0])
    ensures Runs(u + rest, p) == [u] + Runs(rest, p)
  {
    assert [] + u + rest == u + rest;
    RunsCons([], u, rest, p);
  }

  lemma Regroup(a: string, b: string, c: string, d: string)
    ensures a + b + c + d == a + (b + c + d)
  {
  }

  /** Two runs separated by a gap, with a tail that holds none. */
  lemma RunsOfTwo(u1: string, gap: string, u2: string, tail: string, p: char -> bool)
    requires u1 != [] && forall k :: 0 <= k < |u1| ==> p(u1[k])
    requires u2 != [] && forall k :: 0 <= k < |u2| ==> p(u2[k])
    requires gap != [] && forall k :: 0 <= k < |gap| ==> !p(gap[k])
    requires forall k :: 0 <= k < |tail| ==> !p(tail[k])
    ensures Runs(u1 + gap + u2 + tail, p) == [u1, u2]
  {
    var rest := gap + u2 + tail;
    RunsNone(tail, p);
    RunsCons(gap, u2, tail, p);
    assert Runs(rest, p) == [u2];
    assert rest[0] == gap[0];
    RunsFirst(u1, rest, p);
    Regroup(u1, gap, u2, tail);
  }

  /** The characters of `s` that satisfy `p`, in order. */
  function Keep(s: string, p: char -> bool): string {
    if s == [] then [] else (if p(s[0]) then [s[0]] else []) + Keep(s[1..], p)
  }

  function Concat(ws: seq<string>): string {
    if ws == [] then [] else ws[0] + Concat(ws[1..])
  }

  lemma {:induction false} KeepAppend(a: string, b: string, p: char -> bool)
    ensures Keep(a + b, p) == Keep(a, p) + Keep(b, p)
  {
    if a != [] {
      assert (a + b)[1..] == a[1..] + b;
      KeepAppend(a[1..], b, p);
    } else {
      assert a + b == b;
    }
  }

  lemma {:induction false} KeepAll(a: string, p: char -> bool)
    requires forall k :: 0 <= k < |a| ==> p(a[k])
    ensures Keep(a, p) == a
  {
    if a != [] {
      KeepAll(a[1..], p);
    }
  }

  lemma {:induction false} KeepNone(a: string, p: char -> bool)
    requires forall k :: 0 <= k < |a| ==> !p(a[k])
    ensures Keep(a, p) == []
  {
    if a != [] {
      KeepNone(a[1..], p);
    }
  }

  /** The runs together hold exactly the characters of `s` that satisfy `p`:
      no matching character is lost and none is invented. */
  lemma {:induction false} RunsCoverMatches(s: string, p: char -> bool)
    ensures Concat(Runs(s, p)) == Keep(s, p)
    decreases |s|
  {
    RunFacts(s, 0, c => !p(c));
    var i := Run(s, 0, c => !p(c));
    var skipped := s[..i];
    SkippedKeepsNothing(s, p);
    if i < |s| {
      RunFacts(s, i, p);
      var n := Run(s, i, p);
      var w := s[i..i + n];
      var rest := s[i + n..];
      RunsCoverMatches(rest, p);
      KeepSplit(s, i, n, p);
      assert Runs(s, p) == [w] + Runs(rest, p);
      assert Concat([w] + Runs(rest, p)) == w + Concat(Runs(rest, p));
    } else {
      assert skipped == s;
    }
  }

  /** Nothing is kept exactly when no character satisfies `p`. */
  lemma {:induction false} KeepEmpty(s: string, p: char -> bool)
    ensures Keep(s, p) == [] <==> forall k :: 0 <= k < |s| ==> !p(s[k])
  {
    if s != [] {
      KeepEmpty(s[1..], p);
      assert forall k :: 1 <= k < |s| ==> s[k] == s[1..][k - 1];
    }
  }

  /** `re.findall` finds no run exactly when no character of `s` belongs to the class. */
  lemma RunsEmpty(s: string, p: char -> bool)
    ensures Runs(s, p) == [] <==> forall k :: 0 <= k < |s| ==> !p(s[k])
  {
    RunsCoverMatches(s, p);
    RunsFacts(s, p);
    KeepEmpty(s, p);
    var rs := Runs(s, p);
    if rs != [] {
      assert Concat(rs) == rs[0] + Concat(rs[1..]);
      assert rs[0] != [];
    }
  }

  lemma SkippedKeepsNothing(s: string, p: char -> bool)
    ensures Run(s, 0, c => !p(c)) <= |s| && Keep(s[..Run(s, 0, c => !p(c))], p) == []
  {
    RunFacts(s, 0, c => !p(c));
    var skipped := s[..Run(s, 0, c => !p(c))];
    assert forall k :: 0 <= k < |skipped| ==> !p(skipped[k]);
    KeepNone(skipped, p);
  }

  lemma {:induction false} KeepSplit(s: string, i: nat, n: nat, p: char -> bool)
    requires i + n <= |s|
    requires Keep(s[..i], p) == []
    requires forall k :: i <= k < i + n ==> p(s[k])
    ensures Keep(s, p) == s[i..i + n] + Keep(s[i + n..], p)
  {
    var skipped, w, rest := s[..i], s[i..i + n], s[i + n..];
    var front := skipped + w;
    assert s == front + rest;
    KeepAppend(front, rest, p);
    KeepAppend(skipped, w, p);
    assert forall k :: 0 <= k < |w| ==> p(w[k]);
    KeepAll(w, p);
    assert Keep(front, p) == w;
  }
}
