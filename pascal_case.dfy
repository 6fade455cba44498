/**
 * `toPascalCase` from utils/string.ts: one global `replace` with the regular
 * expression `(?:^\w|[A-Z]|\b\w|\s+)` and a callback, then a second `replace`
 * that deletes every `\s+` run.
 *
 * The scan is modelled as the JavaScript regular-expression engine runs it:
 * at each position the four alternatives are tried in order, a match hands
 * its text to the callback and the scan resumes after it, and a position
 * where nothing matches copies its character and moves on by one.
 */
module PascalCase {

  import opened Wrappers

  // ---------------------------------------------------------------------------
  // Character classes
  // ---------------------------------------------------------------------------

  /** `\w` without the `u` flag: ASCII letters, ASCII digits and `_`. */
  predicate IsWordChar(c: char) {
    ('A' <= c <= 'Z') || ('a' <= c <= 'z') || ('0' <= c <= '9') || c == '_'
  }

  predicate IsAsciiUpper(c: char) {
    'A' <= c <= 'Z'
  }

  /** `\s`: the code points ECMAScript counts as WhiteSpace or LineTerminator. */
  predicate IsSpace(c: char) {
    var n := c as int;
    (0x09 <= n <= 0x0D) || n == 0x20 || n == 0xA0 || n == 0x1680 ||
    (0x2000 <= n <= 0x200A) || n == 0x2028 || n == 0x2029 || n == 0x202F ||
    n == 0x205F || n == 0x3000 || n == 0xFEFF
  }

  lemma WordCharIsNotSpace(c: char)
    requires IsWordChar(c)
    ensures !IsSpace(c)
  {
  }

  predicate AllSpace(m: string) {
    forall k :: 0 <= k < |m| ==> IsSpace(m[k])
  }

  /**
   * `toUpperCase` on a single character. The callback only ever upper-cases a
   * matched `\w` character, so the ASCII mapping is the whole story.
   */
  function ToUpper(c: char): char {
    if 'a' <= c <= 'z' then (c as int - 32) as char else c
  }

  function Upper(m: string): string {
    seq(|m|, k requires 0 <= k < |m| => ToUpper(m[k]))
  }

  // ---------------------------------------------------------------------------
  // The regular expression
  // ---------------------------------------------------------------------------

  /** Whether the character at index `k` (possibly out of range) is a `\w`. */
  predicate WordAt(s: string, k: int) {
    0 <= k < |s| && IsWordChar(s[k])
  }

  /** `\b`: the characters on either side of position `i` differ in being `\w`. */
  predicate IsBoundary(s: string, i: nat) {
    WordAt(s, i - 1) != WordAt(s, i)
  }

  /** A word-initial character: a `\w` at the start or right after a non-`\w`. */
  predicate IsWordStart(s: string, i: nat) {
    i < |s| && IsWordChar(s[i]) && (i == 0 || !IsWordChar(s[i - 1]))
  }

  /** The greedy `\s+` run starting at `i`: its length, 0 when `s[i]` is not `\s`. */
  function SpaceRun(s: string, i: nat): (n: nat)
    requires i <= |s|
    ensures i + n <= |s|
    ensures forall k :: i <= k < i + n ==> IsSpace(s[k])
    ensures i + n == |s| || !IsSpace(s[i + n])
    decreases |s| - i
  {
    if i < |s| && IsSpace(s[i]) then 1 + SpaceRun(s, i + 1) else 0
  }

  /**
   * The length of the match of `(?:^\w|[A-Z]|\b\w|\s+)` that starts at `i`,
   * trying the alternatives in order; `None` when none matches there.
   */
  function MatchAt(s: string, i: nat): (m: Option<nat>)
    requires i < |s|
    ensures m.Some? ==> 1 <= m.value && i + m.value <= |s|
    ensures m.Some? && m.value != 1 ==> AllSpace(s[i..i + m.value])
    ensures m.None? <==> !IsSpace(s[i]) && !IsAsciiUpper(s[i]) && !IsWordStart(s, i)
  {
    if i == 0 && IsWordChar(s[i]) then Some(1)              // ^\w
    else if IsAsciiUpper(s[i]) then Some(1)                 // [A-Z]
    else if IsBoundary(s, i) && IsWordChar(s[i]) then Some(1) // \b\w
    else if IsSpace(s[i]) then Some(SpaceRun(s, i))         // \s+
    else None
  }

  // ---------------------------------------------------------------------------
  // The callback
  // ---------------------------------------------------------------------------

  /**
   * The test the callback uses to decide that a match disappears:
   * `NumericZero` is the source's `+match === 0`; `TrimmedEmpty` is
   * `match.trim() === ''`, the alternative its comment names.
   */
  datatype BlankTest = NumericZero | TrimmedEmpty

  /**
   * The test on a text the regular expression can match (one character or a
   * white-space run). On those texts `+m` is 0 exactly for "0" and for white
   * space, which `Number` trims to the empty string.
   */
  predicate IsBlank(test: BlankTest, m: string)
    requires |m| <= 1 || AllSpace(m)
  {
    match test
    case NumericZero => m == "0" || AllSpace(m)
    case TrimmedEmpty => AllSpace(m)
  }

  function Callback(test: BlankTest, m: string): (r: string)
    requires |m| <= 1 || AllSpace(m)
    ensures |r| <= |m|
  {
    if IsBlank(test, m) then "" else Upper(m)
  }

  /** The first `replace`, from position `i` to the end. */
  function Replaced(test: BlankTest, s: string, i: nat): (r: string)
    requires i <= |s|
    ensures |r| <= |s| - i
    decreases |s| - i
  {
    if i == |s| then ""
    else match MatchAt(s, i)
      case None => [s[i]] + Replaced(test, s, i + 1)
      case Some(n) => Callback(test, s[i..i + n]) + Replaced(test, s, i + n)
  }

  /** The second `replace`, of `/\s+/g` by the empty string. */
  function StripSpaces(t: string): (r: string)
    ensures |r| <= |t|
    ensures forall k :: 0 <= k < |r| ==> !IsSpace(r[k])
    ensures AllSpace(t) ==> r == ""
    ensures (forall k :: 0 <= k < |t| ==> !IsSpace(t[k])) ==> r == t
  {
    if t == "" then "" else (if IsSpace(t[0]) then "" else [t[0]]) + StripSpaces(t[1..])
  }

  function Convert(test: BlankTest, s: string): string {
    StripSpaces(Replaced(test, s, 0))
  }

  /** `toPascalCase(str)` as written. */
  function ToPascalCase(s: string): (r: string)
    ensures |r| <= |s|
    ensures forall k :: 0 <= k < |r| ==> !IsSpace(r[k])
  {
    Convert(NumericZero, s)
  }

  /** `toPascalCase` with the callback test its comment proposes. */
  function ToPascalCaseIntended(s: string): (r: string)
    ensures |r| <= |s|
    ensures forall k :: 0 <= k < |r| ==> !IsSpace(r[k])
  {
    Convert(TrimmedEmpty, s)
  }

  // ---------------------------------------------------------------------------
  // Reference semantics: each input character decides its own fate
  // ---------------------------------------------------------------------------

  /**
   * What becomes of the character at `i`, judged by that character and its
   * left neighbour only.
   */
  function Fate(test: BlankTest, s: string, i: nat): string
    requires i < |s|
  {
    if IsSpace(s[i]) then ""
    else if IsWordStart(s, i) then (if test == NumericZero && s[i] == '0' then "" else [ToUpper(s[i])])
    else [s[i]]
  }

  /** The fates of the characters at `lo .. hi-1`, in order. */
  function Rendered(test: BlankTest, s: string, lo: nat, hi: nat): string
    requires lo <= hi <= |s|
    decreases hi - lo
  {
    if lo == hi then "" else Rendered(test, s, lo, hi - 1) + Fate(test, s, hi - 1)
  }

  lemma {:induction false} RenderedSplit(test: BlankTest, s: string, lo: nat, mid: nat, hi: nat)
    requires lo <= mid <= hi <= |s|
    ensures Rendered(test, s, lo, hi) == Rendered(test, s, lo, mid) + Rendered(test, s, mid, hi)
    decreases hi - mid
  {
    if mid < hi {
      RenderedSplit(test, s, lo, mid, hi - 1);
    }
  }

  lemma {:induction false} RenderedSpaces(test: BlankTest, s: string, lo: nat, hi: nat)
    requires lo <= hi <= |s|
    requires forall k :: lo <= k < hi ==> IsSpace(s[k])
    ensures Rendered(test, s, lo, hi) == ""
    decreases hi - lo
  {
    if lo < hi {
      RenderedSpaces(test, s, lo, hi - 1);
    }
  }

  /** A one-character match: the callback's result is that character's fate. */
  lemma CharMatchIsRendered(test: BlankTest, s: string, i: nat)
    requires i < |s| && MatchAt(s, i) == Some(1)
    ensures Callback(test, s[i..i + 1]) == Rendered(test, s, i, i + 1)
  {
    var m := s[i..i + 1];
    assert m == [s[i]];
    assert Rendered(test, s, i, i + 1) == Fate(test, s, i);
    if !IsBlank(test, m) {
      assert Upper(m) == [ToUpper(s[i])];
    }
  }

  /** A white-space run: the callback drops it, as the fates of its characters do. */
  lemma SpaceRunIsRendered(test: BlankTest, s: string, i: nat, n: nat)
    requires i + n <= |s| && AllSpace(s[i..i + n])
    ensures Callback(test, s[i..i + n]) == Rendered(test, s, i, i + n)
  {
    var m := s[i..i + n];
    forall k | i <= k < i + n ensures IsSpace(s[k]) {
      assert s[k] == m[k - i];
    }
    RenderedSpaces(test, s, i, i + n);
  }

  /** One step of the scan where nothing matches: the character is copied. */
  lemma CopyStep(test: BlankTest, s: string, i: nat)
    requires i < |s| && MatchAt(s, i).None?
    ensures Replaced(test, s, i) == Rendered(test, s, i, i + 1) + Replaced(test, s, i + 1)
  {
    assert Rendered(test, s, i, i + 1) == Fate(test, s, i) == [s[i]];
  }

  /** One step of the scan at a match of length `n`: the callback's result, then the rest. */
  lemma MatchStep(test: BlankTest, s: string, i: nat, n: nat)
    requires i < |s| && MatchAt(s, i) == Some(n)
    ensures Replaced(test, s, i) == Rendered(test, s, i, i + n) + Replaced(test, s, i + n)
  {
    assert Replaced(test, s, i) == Callback(test, s[i..i + n]) + Replaced(test, s, i + n);
    if n == 1 {
      CharMatchIsRendered(test, s, i);
    } else {
      SpaceRunIsRendered(test, s, i, n);
    }
  }

  /** One step of the scan: the match (or the copied character) at `i`, then the rest. */
  lemma ScanStep(test: BlankTest, s: string, i: nat, j: nat)
    requires i < j <= |s|
    requires j == if MatchAt(s, i).None? then i + 1 else i + MatchAt(s, i).value
    ensures Replaced(test, s, i) == Rendered(test, s, i, j) + Replaced(test, s, j)
  {
    match MatchAt(s, i) {
      case None => CopyStep(test, s, i);
      case Some(n) => MatchStep(test, s, i, n);
    }
  }

  /** The regular-expression scan computes exactly the fates of the characters. */
  lemma {:induction false} ReplacedIsRendered(test: BlankTest, s: string, i: nat)
    requires i <= |s|
    ensures Replaced(test, s, i) == Rendered(test, s, i, |s|)
    decreases |s| - i
  {
    if i < |s| {
      var j := if MatchAt(s, i).None? then i + 1 else i + MatchAt(s, i).value;
      ScanStep(test, s, i, j);
      ReplacedIsRendered(test, s, j);
      RenderedSplit(test, s, i, j, |s|);
    }
  }

  /** Characters before `hi` meet the same fate whatever follows them. */
  lemma {:induction false} RenderedPrefix(test: BlankTest, s: string, j: nat, lo: nat, hi: nat)
    requires lo <= hi <= j <= |s|
    ensures Rendered(test, s[..j], lo, hi) == Rendered(test, s, lo, hi)
    decreases hi - lo
  {
    if lo < hi {
      RenderedPrefix(test, s, j, lo, hi - 1);
      assert Fate(test, s[..j], hi - 1) == Fate(test, s, hi - 1);
    }
  }

  /** No character's fate contains white space. */
  lemma {:induction false} RenderedHasNoSpace(test: BlankTest, s: string, lo: nat, hi: nat)
    requires lo <= hi <= |s|
    ensures forall k :: 0 <= k < |Rendered(test, s, lo, hi)| ==> !IsSpace(Rendered(test, s, lo, hi)[k])
    decreases hi - lo
  {
    if lo < hi {
      RenderedHasNoSpace(test, s, lo, hi - 1);
      if IsWordStart(s, hi - 1) {
        WordCharIsNotSpace(s[hi - 1]);
        WordCharIsNotSpace(ToUpper(s[hi - 1]));
      }
    }
  }

  /** The second pass never changes the first pass's output: the first leaves no white space. */
  lemma {:induction false} SecondPassIsIdentity(test: BlankTest, s: string)
    ensures Convert(test, s) == Replaced(test, s, 0)
  {
    ReplacedIsRendered(test, s, 0);
    RenderedHasNoSpace(test, s, 0, |s|);
  }

  lemma {:induction false} ConvertIsRendered(test: BlankTest, s: string)
    ensures Convert(test, s) == Rendered(test, s, 0, |s|)
  {
    SecondPassIsIdentity(test, s);
    ReplacedIsRendered(test, s, 0);
  }

  /**
   * Converting character by character: appending `c` to the input appends
   * nothing when `c` is white space, nothing for a word-initial "0" under the
   * source's test, the upper-cased `c` when `c` starts a word, and `c` itself
   * otherwise. With `Convert(test, "") == ""` this fixes the whole function.
   */
  lemma {:induction false} ConvertAppend(test: BlankTest, s: string, c: char)
    ensures Convert(test, s + [c]) == Convert(test, s) +
      (if IsSpace(c) then ""
       else if IsWordChar(c) && (s == "" || !IsWordChar(s[|s| - 1]))
       then (if test == NumericZero && c == '0' then "" else [ToUpper(c)])
       else [c])
  {
    var t := s + [c];
    ConvertIsRendered(test, t);
    ConvertIsRendered(test, s);
    assert t[..|s|] == s;
    RenderedPrefix(test, t, |s|, 0, |s|);
    assert Rendered(test, t, 0, |t|) == Rendered(test, t, 0, |s|) + Fate(test, t, |s|);
  }

  /** The output for a prefix of the input is a prefix of the output. */
  lemma {:induction false} ConvertPrefix(test: BlankTest, s: string, j: nat)
    requires j <= |s|
    ensures Convert(test, s[..j]) == Rendered(test, s, 0, j)
    ensures Convert(test, s) == Convert(test, s[..j]) + Rendered(test, s, j, |s|)
  {
    ConvertIsRendered(test, s[..j]);
    ConvertIsRendered(test, s);
    RenderedPrefix(test, s, j, 0, j);
    RenderedSplit(test, s, 0, j, |s|);
  }

  /** Every character of the suffix after a non-`\w` sees the same left neighbour class. */
  lemma {:induction false} RenderedShift(test: BlankTest, a: string, b: string, hi: nat)
    requires |a| > 0 && !IsWordChar(a[|a| - 1])
    requires hi <= |b|
    ensures Rendered(test, a + b, |a|, |a| + hi) == Rendered(test, b, 0, hi)
    decreases hi
  {
    if hi > 0 {
      RenderedShift(test, a, b, hi - 1);
      var t := a + b;
      var k := |a| + hi - 1;
      assert t[k] == b[hi - 1];
      assert IsWordStart(t, k) == IsWordStart(b, hi - 1) by {
        if hi - 1 > 0 {
          assert t[k - 1] == b[hi - 2];
        } else {
          assert t[k - 1] == a[|a| - 1];
        }
      }
      assert Fate(test, t, k) == Fate(test, b, hi - 1);
    }
  }

  /** The fates of `a + b` split at a non-`\w` last character of `a`. */
  lemma {:induction false} RenderedAfterNonWord(test: BlankTest, a: string, b: string)
    requires |a| > 0 && !IsWordChar(a[|a| - 1])
    ensures Rendered(test, a + b, 0, |a + b|) == Rendered(test, a, 0, |a|) + Rendered(test, b, 0, |b|)
  {
    var t := a + b;
    RenderedSplit(test, t, 0, |a|, |t|);
    assert t[..|a|] == a;
    RenderedPrefix(test, t, |a|, 0, |a|);
    RenderedShift(test, a, b, |b|);
  }

  /**
   * A character that is not `\w` ends a word: what follows it is converted
   * as if it stood alone.
   */
  lemma {:induction false} ConvertAfterNonWord(test: BlankTest, a: string, b: string)
    requires |a| > 0 && !IsWordChar(a[|a| - 1])
    ensures Convert(test, a + b) == Convert(test, a) + Convert(test, b)
  {
    RenderedAfterNonWord(test, a, b);
    ConvertIsRendered(test, a + b);
    ConvertIsRendered(test, a);
    ConvertIsRendered(test, b);
  }

  /** Trailing white space adds nothing to the output. */
  lemma {:induction false} ConvertTrailingSpace(test: BlankTest, a: string, w: string)
    requires AllSpace(w)
    ensures Convert(test, a + w) == Convert(test, a)
  {
    var aw := a + w;
    ConvertPrefix(test, aw, |a|);
    assert aw[..|a|] == a;
    RenderedSpaces(test, aw, |a|, |aw|);
  }

  /**
   * A white-space run between two parts is removed entirely and the part after
   * it is converted as if it stood alone: "denim jacket" gives
   * "Denim" + "Jacket".
   */
  lemma {:induction false} ConvertAcrossSpace(test: BlankTest, a: string, w: string, b: string)
    requires |w| > 0 && AllSpace(w)
    ensures Convert(test, a + w + b) == Convert(test, a) + Convert(test, b)
  {
    var aw := a + w;
    assert aw[|aw| - 1] == w[|w| - 1];
    ConvertAfterNonWord(test, aw, b);
    ConvertTrailingSpace(test, a, w);
  }

  /**
   * Punctuation is kept and the part after it is converted as if it stood
   * alone: "a-b" gives "A" + "-" + "B".
   */
  lemma {:induction false} ConvertAcrossPunctuation(test: BlankTest, a: string, p: char, b: string)
    requires !IsWordChar(p) && !IsSpace(p)
    ensures Convert(test, a + [p] + b) == Convert(test, a) + [p] + Convert(test, b)
  {
    var ap := a + [p];
    ConvertAfterNonWord(test, ap, b);
    ConvertAppend(test, a, p);
  }

  /** The number of characters of `s` that are not white space. */
  function VisibleCount(s: string): nat {
    if s == "" then 0 else (if IsSpace(s[0]) then 0 else 1) + VisibleCount(s[1..])
  }

  lemma {:induction false} VisibleCountAppend(s: string, c: char)
    ensures VisibleCount(s + [c]) == VisibleCount(s) + (if IsSpace(c) then 0 else 1)
  {
    if s != "" {
      assert (s + [c])[1..] == s[1..] + [c];
      VisibleCountAppend(s[1..], c);
    }
  }

  /** With the intended test every character that is not white space is kept. */
  lemma {:induction false} IntendedKeepsVisibleChars(s: string)
    ensures |ToPascalCaseIntended(s)| == VisibleCount(s)
    decreases |s|
  {
    if s != "" {
      var p := s[..|s| - 1];
      assert s == p + [s[|s| - 1]];
      IntendedKeepsVisibleChars(p);
      ConvertAppend(TrimmedEmpty, p, s[|s| - 1]);
      VisibleCountAppend(p, s[|s| - 1]);
    }
  }

  /** The two tests agree on every input with no word-initial "0". */
  lemma {:induction false} IntendedAgreesWithoutInitialZero(s: string)
    requires forall i :: 0 <= i < |s| && IsWordStart(s, i) ==> s[i] != '0'
    ensures ToPascalCase(s) == ToPascalCaseIntended(s)
    decreases |s|
  {
    if s != "" {
      var p := s[..|s| - 1];
      assert s == p + [s[|s| - 1]];
      forall i | 0 <= i < |p| && IsWordStart(p, i) ensures p[i] != '0' {
        assert IsWordStart(s, i);
      }
      IntendedAgreesWithoutInitialZero(p);
      ConvertAppend(NumericZero, p, s[|s| - 1]);
      ConvertAppend(TrimmedEmpty, p, s[|s| - 1]);
    }
  }

  // ---------------------------------------------------------------------------
  // The behaviours the callers see
  // ---------------------------------------------------------------------------

  lemma ConvertEmpty(test: BlankTest)
    ensures Convert(test, "") == ""
  {
  }

  /**
   * Inside a run of `\w` characters only the first can start a word: the
   * others are copied.
   */
  lemma {:induction false} RenderedWord(test: BlankTest, w: string, hi: nat)
    requires 1 <= hi <= |w| && forall k :: 0 <= k < |w| ==> IsWordChar(w[k])
    ensures Rendered(test, w, 0, hi) == Fate(test, w, 0) + w[1..hi]
    decreases hi
  {
    if hi == 1 {
      assert Rendered(test, w, 0, 1) == Rendered(test, w, 0, 0) + Fate(test, w, 0);
    } else {
      RenderedWord(test, w, hi - 1);
      WordCharIsNotSpace(w[hi - 1]);
      assert Fate(test, w, hi - 1) == [w[hi - 1]];
      assert w[1..hi] == w[1..hi - 1] + [w[hi - 1]];
    }
  }

  /**
   * A single word is capitalised and otherwise left as it is: no letter after
   * the first is lower-cased or changed.
   */
  lemma ConvertWord(test: BlankTest, w: string)
    requires |w| > 0 && forall k :: 0 <= k < |w| ==> IsWordChar(w[k])
    requires test == TrimmedEmpty || w[0] != '0'
    ensures Convert(test, w) == [ToUpper(w[0])] + w[1..]
  {
    ConvertIsRendered(test, w);
    RenderedWord(test, w, |w|);
    WordCharIsNotSpace(w[0]);
  }

  /** Two words joined by one space: the space goes and each word is capitalised. */
  lemma TwoWords(a: string, b: string)
    requires |a| > 0 && (forall k :: 0 <= k < |a| ==> IsWordChar(a[k])) && a[0] != '0'
    requires |b| > 0 && (forall k :: 0 <= k < |b| ==> IsWordChar(b[k])) && b[0] != '0'
    ensures ToPascalCase(a + " " + b) == [ToUpper(a[0])] + a[1..] + [ToUpper(b[0])] + b[1..]
  {
    ConvertAcrossSpace(NumericZero, a, " ", b);
    ConvertWord(NumericZero, a);
    ConvertWord(NumericZero, b);
  }

  // The examples take their inputs as parameters fixed by `requires`: stated on
  // literals directly, the verifier unfolds the whole scan on them.

  /**
   * A white-space run between words is removed and later letters keep their
   * case: "denim jacket" gives "DenimJacket", "denim JACKET" gives "DenimJACKET".
   */
  lemma ExampleDenimJacket(a: string, b: string, c: string)
    requires a == "denim" && b == "jacket" && c == "JACKET"
    ensures ToPascalCase(a + " " + b) == "DenimJacket"
    ensures ToPascalCase(a + " " + c) == "DenimJACKET"
  {
    TwoWords(a, b);
    TwoWords(a, c);
  }

  /**
   * Under the source's test a word that starts with "0" loses the "0", and the
   * character after it, which no longer starts a word, is not capitalised.
   */
  lemma LeadingZeroDropped(w: string)
    requires forall k :: 0 <= k < |w| ==> IsWordChar(w[k])
    ensures ToPascalCase("0" + w) == w
  {
    var z := "0" + w;
    forall k | 0 <= k < |z| ensures IsWordChar(z[k]) {
      if k > 0 {
        assert z[k] == w[k - 1];
      }
    }
    ConvertIsRendered(NumericZero, z);
    RenderedWord(NumericZero, z, |z|);
    assert z[1..] == w;
  }

  /** "0abc" gives "abc". */
  lemma ExampleLeadingZero(s: string)
    requires s == "0abc"
    ensures ToPascalCase(s) == "abc"
  {
    LeadingZeroDropped(s[1..]);
    assert "0" + s[1..] == s;
  }

  /** With the test the comment names, "0abc" is kept whole. */
  lemma IntendedKeepsLeadingZero(s: string)
    requires s == "0abc"
    ensures ToPascalCaseIntended(s) == "0abc"
  {
    ConvertWord(TrimmedEmpty, s);
  }
}
