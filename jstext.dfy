/**
 * The JavaScript string operations the converter is built from, stated on
 * `seq<char>`: the `\s` and `\w` character classes, `trim`, `includes`,
 * `indexOf`, `split`, `replace` with a string pattern (first occurrence only)
 * and `replace` with a global `\b...\b` regular expression.
 */
module JsText {

  datatype Option<+T> = None | Some(value: T)

  /** A value handed to the converter from JavaScript: a string or anything else. */
  datatype JsValue = Str(s: string) | NonString

  /** The class `\s`; `trim` removes exactly these characters too. */
  predicate IsSpace(c: char) {
    || c == '\t' || c == '\n' || c == '\U{B}' || c == '\U{C}' || c == '\r' || c == ' '
    || c == '\U{A0}' || c == '\U{1680}' || ('\U{2000}' <= c <= '\U{200A}')
    || c == '\U{2028}' || c == '\U{2029}' || c == '\U{202F}' || c == '\U{205F}'
    || c == '\U{3000}' || c == '\U{FEFF}'
  }

  /** The characters the regular-expression wildcard `.` does not match. */
  predicate IsLineTerminator(c: char) {
    c == '\n' || c == '\r' || c == '\U{2028}' || c == '\U{2029}'
  }

  /** The class `\w`, which decides where `\b` holds (no `u` flag, so ASCII only). */
  predicate IsWordChar(c: char) {
    ('a' <= c <= 'z') || ('A' <= c <= 'Z') || ('0' <= c <= '9') || c == '_'
  }

  predicate IsDigit(c: char) {
    '0' <= c <= '9'
  }

  /** The class `[a-z0-9]`. */
  predicate IsLowerAlnum(c: char) {
    ('a' <= c <= 'z') || IsDigit(c)
  }

  /** ASCII case folding, as the `i` flag applies it (non-ASCII letters never fold onto ASCII). */
  function AsciiLower(c: char): (r: char)
    ensures 'A' <= c <= 'Z' ==> 'a' <= r <= 'z' && r as int == c as int + 32
    ensures !('A' <= c <= 'Z') ==> r == c
  {
    if 'A' <= c <= 'Z' then (c as int + 32) as char else c
  }

  // ---------------------------------------------------------------- trim

  /** The first position at or after `i` that does not hold a `\s` character. */
  function SkipSpaces(s: string, i: nat): (r: nat)
    requires i <= |s|
    decreases |s| - i
    ensures i <= r <= |s|
    ensures forall j :: i <= j < r ==> IsSpace(s[j])
    ensures r < |s| ==> !IsSpace(s[r])
  {
    if i < |s| && IsSpace(s[i]) then SkipSpaces(s, i + 1) else i
  }

  /** The last position down to `lo` before which no `\s` character stands. */
  function SkipSpacesBack(s: string, lo: nat, j: nat): (r: nat)
    requires lo <= j <= |s|
    decreases j
    ensures lo <= r <= j
    ensures forall i :: r <= i < j ==> IsSpace(s[i])
    ensures r > lo ==> !IsSpace(s[r - 1])
  {
    if j > lo && IsSpace(s[j - 1]) then SkipSpacesBack(s, lo, j - 1) else j
  }

  /** Where `Trim(s)` starts in `s`: the number of leading `\s` characters. */
  function TrimOffset(s: string): (k: nat)
    ensures k <= |s|
  {
    SkipSpaces(s, 0)
  }

  /**
   * `String.prototype.trim`: the result is the slice of `s` left once the
   * leading and the trailing `\s` characters are dropped, and only those.
   */
  function Trim(s: string): (r: string)
    ensures |r| <= |s|
    ensures r != [] ==> !IsSpace(r[0]) && !IsSpace(r[|r| - 1])
    ensures r == [] <==> forall i :: 0 <= i < |s| ==> IsSpace(s[i])
    ensures (s == [] || (!IsSpace(s[0]) && !IsSpace(s[|s| - 1]))) ==> r == s
    ensures var k := TrimOffset(s);
      && k + |r| <= |s| && r == s[k..k + |r|]
      && (forall i :: 0 <= i < k ==> IsSpace(s[i]))
      && (forall i :: k + |r| <= i < |s| ==> IsSpace(s[i]))
  {
    var a := SkipSpaces(s, 0);
    var b := SkipSpacesBack(s, a, |s|);
    assert a < b ==> !IsSpace(s[a]);
    s[a..b]
  }

  /** `Trim(s)` is the slice of `s` at offset `k`, with only `\s` before and after it. */
  lemma TrimIsInfix(s: string) returns (k: nat)
    ensures k + |Trim(s)| <= |s| && Trim(s) == s[k..k + |Trim(s)|]
    ensures forall i :: 0 <= i < k ==> IsSpace(s[i])
    ensures forall i :: k + |Trim(s)| <= i < |s| ==> IsSpace(s[i])
  {
    k := TrimOffset(s);
  }

  /** Trimming only removes characters. */
  lemma TrimProvenance(s: string)
    ensures forall c :: c in Trim(s) ==> c in s
  {
    var k := TrimOffset(s);
    var t := Trim(s);
    forall c | c in t
      ensures c in s
    {
      var j :| 0 <= j < |t| && t[j] == c;
      assert s[k + j] == c;
    }
  }

  // ------------------------------------------------------- includes / indexOf

  predicate OccursAt(s: string, t: string, i: nat) {
    i + |t| <= |s| && s[i..i + |t|] == t
  }

  function IndexOfFrom(s: string, t: string, from: nat): (r: Option<nat>)
    decreases |s| - from
    ensures r.Some? ==> from <= r.value && OccursAt(s, t, r.value)
    ensures r.Some? ==> forall j :: from <= j < r.value ==> !OccursAt(s, t, j)
    ensures r.None? ==> forall j :: from <= j ==> !OccursAt(s, t, j)
  {
    if from + |t| > |s| then None
    else if s[from..from + |t|] == t then Some(from)
    else IndexOfFrom(s, t, from + 1)
  }

  /** `s.indexOf(t)`: the first position where `t` occurs in `s`. */
  function IndexOf(s: string, t: string): Option<nat> {
    IndexOfFrom(s, t, 0)
  }

  /** `s.includes(t)`. */
  predicate Includes(s: string, t: string) {
    IndexOf(s, t).Some?
  }

  lemma IncludesIff(s: string, t: string)
    ensures Includes(s, t) <==> exists j :: OccursAt(s, t, j)
  {
  }

  /** Every string includes the empty string, which is why an empty parsed field matches every name. */
  lemma IncludesEmpty(s: string)
    ensures Includes(s, "")
  {
    assert OccursAt(s, "", 0);
  }

  /** A string that lacks a character cannot include a string that has it. */
  lemma NotIncludesWithout(s: string, t: string, c: char)
    requires c in t && c !in s
    ensures !Includes(s, t)
  {
  }

  /** `s.replace(t, v)` with a string pattern: only the first occurrence is replaced. */
  function ReplaceFirst(s: string, t: string, v: string): (r: string)
    ensures !Includes(s, t) ==> r == s
    ensures Includes(s, t) ==> |r| == |s| - |t| + |v|
    ensures forall c :: c in r ==> c in s || c in v
  {
    match IndexOf(s, t)
    case None => s
    case Some(k) =>
      assert forall c :: c in s[..k] + s[k + |t|..] ==> c in s;
      s[..k] + v + s[k + |t|..]
  }

  /** Where `t` occurs, `replace` splices `v` in at its first occurrence. */
  lemma ReplaceFirstSplices(s: string, t: string, v: string)
    requires Includes(s, t)
    ensures IndexOf(s, t).value + |t| <= |s|
    ensures ReplaceFirst(s, t, v) == s[..IndexOf(s, t).value] + v + s[IndexOf(s, t).value + |t|..]
  {
  }

  // ------------------------------------------------------------------- split

  /** `s.split(sep)` for a one-character separator. */
  function Split(s: string, sep: char): (parts: seq<string>)
    ensures |parts| >= 1
    ensures forall i :: 0 <= i < |parts| ==> sep !in parts[i]
  {
    if s == [] then [""]
    else
      var rest := Split(s[1..], sep);
      if s[0] == sep then [""] + rest else [[s[0]] + rest[0]] + rest[1..]
  }

  /** `parts.join(sep)`. */
  function Join(parts: seq<string>, sep: char): string {
    if parts == [] then ""
    else if |parts| == 1 then parts[0]
    else parts[0] + [sep] + Join(parts[1..], sep)
  }

  /** Splitting and joining again gives the original string back. */
  lemma {:induction false} JoinSplit(s: string, sep: char)
    ensures Join(Split(s, sep), sep) == s
  {
    if s != [] {
      JoinSplit(s[1..], sep);
      var rest := Split(s[1..], sep);
      if s[0] != sep && |rest| > 1 {
        assert Join(rest, sep) == rest[0] + [sep] + Join(rest[1..], sep);
        assert s == [s[0]] + s[1..];
      }
    }
  }

  /** A string without the separator splits into itself alone. */
  lemma {:induction false} SplitWithoutSeparator(s: string, sep: char)
    requires sep !in s
    ensures Split(s, sep) == [s]
  {
    if s != [] {
      SplitWithoutSeparator(s[1..], sep);
      assert [s[0]] + s[1..] == s;
    }
  }

  // --------------------------------------------- global `\b(a|b|...)\b` replace

  /** One character of a regular-expression source: a literal or the wildcard `.`. */
  datatype PatChar = Lit(c: char) | AnyChar

  type Pattern = seq<PatChar>

  /** The pattern a source string denotes inside `new RegExp(...)`: `.` is the wildcard. */
  function Compile(src: string): (p: Pattern)
    ensures |p| == |src|
    ensures forall i :: 0 <= i < |src| ==> (p[i] == AnyChar <==> src[i] == '.')
    ensures forall i :: 0 <= i < |src| && src[i] != '.' ==> p[i] == Lit(src[i])
  {
    if src == [] then [] else [if src[0] == '.' then AnyChar else Lit(src[0])] + Compile(src[1..])
  }

  /** One character under the `i` flag. */
  predicate CharMatches(p: PatChar, c: char) {
    match p
    case Lit(d) => AsciiLower(c) == AsciiLower(d)
    case AnyChar => !IsLineTerminator(c)
  }

  predicate MatchesAt(s: string, i: nat, p: Pattern) {
    i + |p| <= |s| && forall j :: 0 <= j < |p| ==> CharMatches(p[j], s[i + j])
  }

  /** `\b` at position `i`: a word character on exactly one side. */
  predicate BoundaryAt(s: string, i: nat)
    requires i <= |s|
  {
    (i > 0 && IsWordChar(s[i - 1])) != (i < |s| && IsWordChar(s[i]))
  }

  /** `\b(p)\b` matches at `i`. */
  predicate WordAt(s: string, i: nat, p: Pattern) {
    i <= |s| && MatchesAt(s, i, p) && BoundaryAt(s, i) && BoundaryAt(s, i + |p|)
  }

  /** The first alternative (in source order) that matches as a whole word at `i`. */
  function FirstWordAt(s: string, i: nat, alts: seq<Pattern>): (r: Option<nat>)
    ensures r.Some? ==> r.value < |alts| && WordAt(s, i, alts[r.value])
    ensures r.Some? ==> forall k :: 0 <= k < r.value ==> !WordAt(s, i, alts[k])
    ensures r.None? ==> forall k :: 0 <= k < |alts| ==> !WordAt(s, i, alts[k])
  {
    if alts == [] then None
    else if WordAt(s, i, alts[0]) then Some(0)
    else match FirstWordAt(s, i, alts[1..])
      case None => None
      case Some(k) => Some(k + 1)
  }

  /** No alternative matches as a whole word at position `i` or later. */
  predicate NoWordFrom(s: string, alts: seq<Pattern>, i: nat) {
    forall j, k :: i <= j < |s| && 0 <= k < |alts| ==> !WordAt(s, j, alts[k])
  }

  /**
   * The output of the global replacement from position `i` on; matches are
   * found on `s` itself. An empty match is replaced and the search moves on by
   * one character, as `String.prototype.replace` does.
   */
  function ReplaceWordsFrom(s: string, alts: seq<Pattern>, rep: string, i: nat): string
    decreases |s| - i
  {
    if i >= |s| then []
    else match FirstWordAt(s, i, alts)
      case Some(k) =>
        if alts[k] == [] then rep + [s[i]] + ReplaceWordsFrom(s, alts, rep, i + 1)
        else rep + ReplaceWordsFrom(s, alts, rep, i + |alts[k]|)
      case None => [s[i]] + ReplaceWordsFrom(s, alts, rep, i + 1)
  }

  /** Where no alternative matches as a whole word from `i` on, the text is copied unchanged. */
  lemma {:induction false} ReplaceWordsFromUnchanged(s: string, alts: seq<Pattern>, rep: string, i: nat)
    requires i <= |s| && NoWordFrom(s, alts, i)
    ensures ReplaceWordsFrom(s, alts, rep, i) == s[i..]
    decreases |s| - i
  {
    if i < |s| {
      assert FirstWordAt(s, i, alts).None?;
      ReplaceWordsFromUnchanged(s, alts, rep, i + 1);
      assert s[i..] == [s[i]] + s[i + 1..];
    }
  }

  /** Every character of the output comes from the text or from the replacement. */
  lemma {:induction false} ReplaceWordsFromProvenance(s: string, alts: seq<Pattern>, rep: string, i: nat)
    ensures forall c :: c in ReplaceWordsFrom(s, alts, rep, i) ==> c in s || c in rep
    decreases |s| - i
  {
    if i < |s| {
      match FirstWordAt(s, i, alts)
      case Some(k) =>
        if alts[k] == [] {
          ReplaceWordsFromProvenance(s, alts, rep, i + 1);
        } else {
          ReplaceWordsFromProvenance(s, alts, rep, i + |alts[k]|);
        }
      case None =>
        ReplaceWordsFromProvenance(s, alts, rep, i + 1);
    }
  }

  /** `s.replace(/\b(a|b|...)\b/gi, rep)`: unchanged where nothing matches, and no character from elsewhere. */
  function ReplaceWords(s: string, alts: seq<Pattern>, rep: string): (r: string)
    ensures NoWordFrom(s, alts, 0) ==> r == s
    ensures forall c :: c in r ==> c in s || c in rep
  {
    ReplaceWordsFromProvenance(s, alts, rep, 0);
    assert NoWordFrom(s, alts, 0) ==> ReplaceWordsFrom(s, alts, rep, 0) == s by {
      if NoWordFrom(s, alts, 0) {
        ReplaceWordsFromUnchanged(s, alts, rep, 0);
      }
    }
    ReplaceWordsFrom(s, alts, rep, 0)
  }

  /** At a whole-word match the replacement is `rep`, and the search resumes after the match. */
  lemma ReplaceWordsAtMatch(s: string, alts: seq<Pattern>, rep: string, i: nat, k: nat)
    requires i < |s| && FirstWordAt(s, i, alts) == Some(k) && alts[k] != []
    ensures i + |alts[k]| <= |s|
    ensures ReplaceWordsFrom(s, alts, rep, i) == rep + ReplaceWordsFrom(s, alts, rep, i + |alts[k]|)
  {
  }

  /** Where no alternative matches, the character is copied and the search moves on by one. */
  lemma ReplaceWordsSkip(s: string, alts: seq<Pattern>, rep: string, i: nat)
    requires i < |s| && FirstWordAt(s, i, alts).None?
    ensures ReplaceWordsFrom(s, alts, rep, i) == [s[i]] + ReplaceWordsFrom(s, alts, rep, i + 1)
  {
  }

  lemma ConsSlice(s: string, i: nat, j: nat, t: string)
    requires i < j <= |s|
    ensures [s[i]] + (s[i + 1..j] + t) == s[i..j] + t
  {
    assert s[i..j] == [s[i]] + s[i + 1..j];
  }

  /**
   * The global replacement cuts the text at its leftmost whole-word match:
   * the text before it is copied, the match becomes `rep`, and the search
   * goes on right after the match.
   */
  lemma {:induction false} ReplaceWordsLeftmost(s: string, alts: seq<Pattern>, rep: string, i: nat, j: nat, k: nat)
    requires i <= j < |s| && FirstWordAt(s, j, alts) == Some(k) && alts[k] != []
    requires forall j' :: i <= j' < j ==> FirstWordAt(s, j', alts).None?
    ensures j + |alts[k]| <= |s|
    ensures ReplaceWordsFrom(s, alts, rep, i) == s[i..j] + (rep + ReplaceWordsFrom(s, alts, rep, j + |alts[k]|))
    decreases j - i
  {
    ReplaceWordsAtMatch(s, alts, rep, j, k);
    var rest := ReplaceWordsFrom(s, alts, rep, j + |alts[k]|);
    if i < j {
      assert FirstWordAt(s, i, alts).None?;
      ReplaceWordsSkip(s, alts, rep, i);
      ReplaceWordsLeftmost(s, alts, rep, i + 1, j, k);
      ConsSlice(s, i, j, rep + rest);
    } else {
      assert s[i..j] == [];
    }
  }

  /** `p` spells `w` with literal characters only. */
  predicate Spells(p: Pattern, w: string) {
    |p| == |w| && forall i :: 0 <= i < |w| ==> p[i] == Lit(w[i])
  }

  /** A literal pattern matches its own text as a whole word when that starts and ends with word characters. */
  lemma WordAtItself(w: string, p: Pattern)
    requires w != [] && IsWordChar(w[0]) && IsWordChar(w[|w| - 1]) && Spells(p, w)
    ensures WordAt(w, 0, p)
  {
  }

  /** `FirstWordAt` picks the `k`-th alternative when it matches and none before it does. */
  lemma FirstWordAtIs(s: string, i: nat, alts: seq<Pattern>, k: nat)
    requires k < |alts| && WordAt(s, i, alts[k])
    requires forall j :: 0 <= j < k ==> !WordAt(s, i, alts[j])
    ensures FirstWordAt(s, i, alts) == Some(k)
  {
  }

  /** A text that is exactly one matching alternative is replaced as a whole. */
  lemma ReplaceWholeText(s: string, alts: seq<Pattern>, rep: string, k: nat)
    requires k < |alts| && |alts[k]| == |s| > 0
    requires FirstWordAt(s, 0, alts) == Some(k)
    ensures ReplaceWords(s, alts, rep) == rep
  {
    assert ReplaceWordsFrom(s, alts, rep, |s|) == [];
  }

  /** A pattern whose `d`-th character is a literal other than `s[d]` does not match `s` at 0. */
  lemma LiteralDiffers(s: string, p: Pattern, d: nat, c: char)
    requires d < |p| && d < |s| && p[d] == Lit(c) && AsciiLower(s[d]) != AsciiLower(c)
    ensures !WordAt(s, 0, p)
  {
  }

  /** A text that is exactly the `k`-th alternative, no earlier one matching it, is replaced as a whole. */
  lemma ReplaceWholeWord(w: string, alts: seq<Pattern>, rep: string, k: nat)
    requires k < |alts| && Spells(alts[k], w)
    requires w != [] && IsWordChar(w[0]) && IsWordChar(w[|w| - 1])
    requires forall j :: 0 <= j < k ==> !WordAt(w, 0, alts[j])
    ensures ReplaceWords(w, alts, rep) == rep
  {
    WordAtItself(w, alts[k]);
    FirstWordAtIs(w, 0, alts, k);
    ReplaceWholeText(w, alts, rep, k);
  }

  // ------------------------------------------------- erasing whole words

  /** A literal word character: whatever it matches under the `i` flag is a word character too. */
  predicate WordLit(pc: PatChar) {
    pc.Lit? && IsWordChar(pc.c)
  }

  /**
   * A pattern that begins and ends with a literal word character and never
   * has two non-word entries side by side.
   */
  predicate Fenced(p: Pattern) {
    p != [] && WordLit(p[0]) && WordLit(p[|p| - 1])
    && forall q :: 0 <= q < |p| - 1 ==> WordLit(p[q]) || WordLit(p[q + 1])
  }

  predicate AllFenced(alts: seq<Pattern>) {
    forall k :: 0 <= k < |alts| ==> Fenced(alts[k])
  }

  lemma WordLitMatches(pc: PatChar, c: char)
    requires WordLit(pc) && CharMatches(pc, c)
    ensures IsWordChar(c)
  {
  }

  /**
   * A whole-word match inside the slice `s[a..b]` is one in `s` too, when the
   * slice neither begins nor ends in the middle of a word.
   */
  lemma SliceWordAt(s: string, a: nat, b: nat, p: nat, m: Pattern)
    requires a <= b <= |s| && Fenced(m) && WordAt(s[a..b], p, m)
    requires a == 0 || !IsWordChar(s[a - 1]) || (a < b && !IsWordChar(s[a]))
    requires b == |s| || !IsWordChar(s[b]) || !IsWordChar(s[b - 1])
    ensures a + p < b && WordAt(s, a + p, m)
  {
    var t := s[a..b];
    assert forall j :: p <= j < p + |m| ==> t[j] == s[a + j];
  }

  /** A slice free of matches in `s`, under the conditions of `SliceWordAt`, has no whole-word match of its own. */
  lemma NoWordInSlice(s: string, alts: seq<Pattern>, a: nat, b: nat)
    requires AllFenced(alts) && a <= b <= |s|
    requires a == 0 || !IsWordChar(s[a - 1]) || (a < b && !IsWordChar(s[a]))
    requires b == |s| || b == a || !IsWordChar(s[b]) || !IsWordChar(s[b - 1])
    requires forall j :: a <= j < b ==> FirstWordAt(s, j, alts).None?
    ensures NoWordFrom(s[a..b], alts, 0)
  {
    forall j, k | 0 <= j < b - a && 0 <= k < |alts|
      ensures !WordAt(s[a..b], j, alts[k])
    {
      assert FirstWordAt(s, a + j, alts).None?;
      if WordAt(s[a..b], j, alts[k]) {
        SliceWordAt(s, a, b, j, alts[k]);
      }
    }
  }

  /** A whole-word match of `s` that lies within `s[a..b]`, which is cut next to non-word characters only, is one of the slice. */
  lemma WordAtSlice(s: string, a: nat, b: nat, p: nat, m: Pattern)
    requires a <= b <= |s| && a + p + |m| <= b && WordAt(s, a + p, m)
    requires a == 0 || !IsWordChar(s[a - 1])
    requires b == |s| || !IsWordChar(s[b])
    ensures WordAt(s[a..b], p, m)
  {
    assert forall j :: p <= j < p + |m| ==> s[a..b][j] == s[a + j];
  }

  /** No alternative can match as a whole word at a non-word character. */
  lemma NoWordAtNonWord(s: string, alts: seq<Pattern>, e: nat)
    requires AllFenced(alts) && e < |s| && !IsWordChar(s[e])
    ensures FirstWordAt(s, e, alts).None?
  {
    forall k | 0 <= k < |alts| ensures !WordAt(s, e, alts[k]) {
      if WordAt(s, e, alts[k]) {
        WordLitMatches(alts[k][0], s[e]);
      }
    }
  }

  /**
   * Two texts without whole-word matches, the first not ending and the
   * second not starting with a word character, have none once joined: a match
   * across the seam would hold two non-word characters side by side.
   */
  lemma NoWordConcat(u: string, v: string, alts: seq<Pattern>)
    requires AllFenced(alts) && NoWordFrom(u, alts, 0) && NoWordFrom(v, alts, 0)
    requires u == [] || !IsWordChar(u[|u| - 1])
    requires v == [] || !IsWordChar(v[0])
    ensures NoWordFrom(u + v, alts, 0)
  {
    var t := u + v;
    forall j, k | 0 <= j < |t| && 0 <= k < |alts|
      ensures !WordAt(t, j, alts[k])
    {
      if WordAt(t, j, alts[k]) {
        var m := alts[k];
        if j + |m| <= |u| {
          assert t[0..|u|] == u;
          WordAtSlice(t, 0, |u|, j, m);
        } else if j >= |u| {
          assert t[|u|..|t|] == v;
          WordAtSlice(t, |u|, |t|, j - |u|, m);
        } else {
          var q := |u| - 1 - j;
          assert WordLit(m[q]) || WordLit(m[q + 1]);
          if WordLit(m[q]) {
            WordLitMatches(m[q], t[j + q]);
          } else {
            WordLitMatches(m[q + 1], t[j + q + 1]);
          }
        }
      }
    }
  }

  /** The first position from `i` on where an alternative matches as a whole word, or the end of the text. */
  function NextWord(s: string, alts: seq<Pattern>, i: nat): (r: nat)
    requires i <= |s|
    decreases |s| - i
    ensures i <= r <= |s|
    ensures r < |s| ==> FirstWordAt(s, r, alts).Some?
    ensures forall j :: i <= j < r ==> FirstWordAt(s, j, alts).None?
  {
    if i == |s| || FirstWordAt(s, i, alts).Some? then i else NextWord(s, alts, i + 1)
  }

  /** A whole-word match of a fenced alternative begins and ends with a word character, fenced off by non-word ones. */
  lemma MatchEdges(s: string, alts: seq<Pattern>, i: nat, k: nat)
    requires AllFenced(alts) && FirstWordAt(s, i, alts) == Some(k)
    ensures 0 < |alts[k]| && i + |alts[k]| <= |s|
    ensures IsWordChar(s[i]) && (i > 0 ==> !IsWordChar(s[i - 1]))
    ensures IsWordChar(s[i + |alts[k]| - 1]) && (i + |alts[k]| < |s| ==> !IsWordChar(s[i + |alts[k]|]))
  {
    var m := alts[k];
    WordLitMatches(m[0], s[i]);
    assert CharMatches(m[|m| - 1], s[i + (|m| - 1)]);
    WordLitMatches(m[|m| - 1], s[i + |m| - 1]);
  }

  /**
   * Erasing the whole words of `s` from `i` on, where `i` does not fall inside
   * a word, leaves a text with no whole-word match.
   */
  lemma {:induction false} EraseWordsFrom(s: string, alts: seq<Pattern>, i: nat)
    requires AllFenced(alts) && i <= |s|
    requires i == 0 || i == |s| || !IsWordChar(s[i - 1]) || !IsWordChar(s[i])
    ensures NoWordFrom(ReplaceWordsFrom(s, alts, "", i), alts, 0)
    decreases |s| - i, 1
  {
    var j := NextWord(s, alts, i);
    if i == |s| {
      assert ReplaceWordsFrom(s, alts, "", i) == [];
    } else if j == |s| {
      EraseNoMatch(s, alts, i);
    } else {
      EraseLeftmost(s, alts, i, j, FirstWordAt(s, j, alts).value);
    }
  }

  /** Without a match from `i` on, the rest of the text is copied and holds none. */
  lemma EraseNoMatch(s: string, alts: seq<Pattern>, i: nat)
    requires AllFenced(alts) && i < |s|
    requires forall j :: i <= j < |s| ==> FirstWordAt(s, j, alts).None?
    requires i == 0 || !IsWordChar(s[i - 1]) || !IsWordChar(s[i])
    ensures NoWordFrom(ReplaceWordsFrom(s, alts, "", i), alts, 0)
  {
    NoWordInSlice(s, alts, i, |s|);
    assert s[i..] == s[i..|s|];
    assert NoWordFrom(s, alts, i) by {
      forall j, k | i <= j < |s| && 0 <= k < |alts| ensures !WordAt(s, j, alts[k]) {
        assert FirstWordAt(s, j, alts).None?;
      }
    }
    ReplaceWordsFromUnchanged(s, alts, "", i);
  }

  /** The text before the leftmost match, which ends on a non-word character, joins the erased rest without a match. */
  lemma {:induction false} EraseLeftmost(s: string, alts: seq<Pattern>, i: nat, j: nat, k: nat)
    requires AllFenced(alts) && i <= j < |s| && FirstWordAt(s, j, alts) == Some(k)
    requires forall j' :: i <= j' < j ==> FirstWordAt(s, j', alts).None?
    requires i == 0 || !IsWordChar(s[i - 1]) || !IsWordChar(s[i])
    ensures NoWordFrom(ReplaceWordsFrom(s, alts, "", i), alts, 0)
    decreases |s| - i, 0
  {
    var e := j + |alts[k]|;
    MatchEdges(s, alts, j, k);
    NoWordInSlice(s, alts, i, j);
    EraseAfterMatch(s, alts, e);
    var u, v := s[i..j], ReplaceWordsFrom(s, alts, "", e);
    assert u == [] || !IsWordChar(u[|u| - 1]) by {
      if u != [] {
        assert u[|u| - 1] == s[j - 1];
      }
    }
    NoWordConcat(u, v, alts);
    LeftmostErased(s, alts, i, j, k);
    NoWordSame(u + v, ReplaceWordsFrom(s, alts, "", i), alts);
  }

  /** `ReplaceWordsLeftmost` with an empty replacement: the leftmost match simply disappears. */
  lemma LeftmostErased(s: string, alts: seq<Pattern>, i: nat, j: nat, k: nat)
    requires i <= j < |s| && FirstWordAt(s, j, alts) == Some(k) && alts[k] != []
    requires forall j' :: i <= j' < j ==> FirstWordAt(s, j', alts).None?
    ensures j + |alts[k]| <= |s|
    ensures s[i..j] + ReplaceWordsFrom(s, alts, "", j + |alts[k]|) == ReplaceWordsFrom(s, alts, "", i)
  {
    ReplaceWordsLeftmost(s, alts, "", i, j, k);
    var v := ReplaceWordsFrom(s, alts, "", j + |alts[k]|);
    assert "" + v == v;
  }

  lemma NoWordSame(t: string, t': string, alts: seq<Pattern>)
    requires NoWordFrom(t, alts, 0) && t == t'
    ensures NoWordFrom(t', alts, 0)
  {
  }

  /** What is left after a match, which ends before a non-word character or at the end, holds no match and does not start a word. */
  lemma {:induction false} EraseAfterMatch(s: string, alts: seq<Pattern>, e: nat)
    requires AllFenced(alts) && e <= |s| && (e == |s| || !IsWordChar(s[e]))
    ensures var v := ReplaceWordsFrom(s, alts, "", e);
      NoWordFrom(v, alts, 0) && (v == [] || !IsWordChar(v[0]))
    decreases |s| - e, 2
  {
    EraseWordsFrom(s, alts, e);
    if e < |s| {
      NoWordAtNonWord(s, alts, e);
      ReplaceWordsSkip(s, alts, "", e);
    }
  }

  lemma SpaceIsNotWord(c: char)
    requires IsSpace(c)
    ensures !IsWordChar(c)
  {
  }

  /** A slice cut next to non-word characters has no whole-word match when the whole text has none. */
  lemma NoWordInner(s: string, alts: seq<Pattern>, a: nat, b: nat)
    requires AllFenced(alts) && NoWordFrom(s, alts, 0) && a <= b <= |s|
    requires a == 0 || !IsWordChar(s[a - 1])
    requires b == |s| || !IsWordChar(s[b])
    ensures NoWordFrom(s[a..b], alts, 0)
  {
    forall j, n | 0 <= j < b - a && 0 <= n < |alts|
      ensures !WordAt(s[a..b], j, alts[n])
    {
      if WordAt(s[a..b], j, alts[n]) {
        SliceWordAt(s, a, b, j, alts[n]);
      }
    }
  }

  /** Trimming keeps a text free of whole-word matches: the ends it drops are spaces. */
  lemma NoWordTrim(s: string, alts: seq<Pattern>)
    requires AllFenced(alts) && NoWordFrom(s, alts, 0)
    ensures NoWordFrom(Trim(s), alts, 0)
  {
    var r, k := Trim(s), TrimOffset(s);
    if k > 0 {
      SpaceIsNotWord(s[k - 1]);
    }
    if k + |r| < |s| {
      SpaceIsNotWord(s[k + |r|]);
    }
    NoWordInner(s, alts, k, k + |r|);
    NoWordSame(s[k..k + |r|], r, alts);
  }

  /**
   * `s.replace(/\b(...)\b/gi, '').trim()` with fenced alternatives leaves no
   * whole-word match: erasing a word leaves non-word characters on both sides
   * of the cut, and no alternative can begin or end on one.
   */
  lemma EraseWordsTrim(s: string, alts: seq<Pattern>)
    requires AllFenced(alts)
    ensures NoWordFrom(Trim(ReplaceWords(s, alts, "")), alts, 0)
  {
    EraseWordsFrom(s, alts, 0);
    NoWordTrim(ReplaceWords(s, alts, ""), alts);
  }
}
