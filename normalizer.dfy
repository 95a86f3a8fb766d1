/**
 * `normalizeText` (app.js:125-155): lowercase, expand whole-word
 * abbreviations, strip Vietnamese diacritics, keep only `[a-z0-9\s]`,
 * collapse whitespace, trim, then rewrite province aliases.
 *
 * `toLowerCase` and `normalize('NFD')` are given by explicit tables of the
 * Vietnamese letters instead of the Unicode database.
 */
module Normalizer {
  import opened JsText
  import opened Letters

  /** A non-empty table key; a `\b...\b` pattern built from it is never empty. */
  type Word = s: string | |s| > 0 witness "a"

  // ------------------------------------------------------------ letter tables

  /** The index of the first occurrence of `c` in `t`. */
  function Position(t: string, c: char): (r: Option<nat>)
    ensures r.Some? ==> r.value < |t| && t[r.value] == c
    ensures r.None? ==> c !in t
  {
    if t == [] then None
    else if t[0] == c then Some(0)
    else match Position(t[1..], c)
      case None => None
      case Some(k) => Some(k + 1)
  }

  /** In a table without repetition, a letter is found at its own index. */
  lemma PositionOfIncreasing(t: string, k: nat)
    requires Increasing(t) && k < |t|
    ensures Position(t, t[k]) == Some(k)
  {
    assert t[k] in t;
  }

  /** `toLowerCase` on one character: ASCII and the Vietnamese capitals. */
  function LowerChar(c: char): (r: char)
    ensures 'A' <= c <= 'Z' ==> r == AsciiLower(c)
    ensures forall k :: 0 <= k < |UpperLetters| && c == UpperLetters[k] ==> r == LowerLetters[k]
    ensures c !in UpperLetters && !('A' <= c <= 'Z') ==> r == c
    ensures !('A' <= r <= 'Z')
  {
    UpperTable();
    LowerTable();
    if 'A' <= c <= 'Z' then AsciiLower(c)
    else if c < '\U{C0}' then c
    else match Position(UpperLetters, c)
      case Some(k) => LowerLetters[k]
      case None => c
  }

  function Lowercase(s: string): (r: string)
    ensures |r| == |s| && forall i :: 0 <= i < |s| ==> r[i] == LowerChar(s[i])
    ensures NoUpperAscii(r)
  {
    seq(|s|, i requires 0 <= i < |s| => LowerChar(s[i]))
  }

  /** No character of the text is in `A-Z`. */
  predicate NoUpperAscii(s: string) {
    forall c :: c in s ==> !('A' <= c <= 'Z')
  }

  /** NFD followed by dropping combining marks, for one character. */
  function StripChar(c: char): (r: string)
    ensures |r| <= 1
    ensures IsCombiningMark(c) <==> r == []
    ensures forall k :: 0 <= k < |LowerLetters| && c == LowerLetters[k] ==> r == [BaseLetters[k]]
    ensures c !in LowerLetters && !IsCombiningMark(c) ==> r == [c]
    ensures forall x :: x in r ==> !IsCombiningMark(x) && (!('A' <= c <= 'Z') ==> !('A' <= x <= 'Z'))
  {
    UpperTable();
    LowerTable();
    BaseTable();
    if IsCombiningMark(c) then []
    else if c < '\U{C0}' then [c]
    else match Position(LowerLetters, c)
      case Some(k) => [BaseLetters[k]]
      case None => [c]
  }

  /** `normalize('NFD').replace(/[\u0300-\u036f]/g, '')`, character by character. */
  function StripDiacritics(s: string): (r: string)
    ensures |r| <= |s|
  {
    if s == [] then [] else StripChar(s[0]) + StripDiacritics(s[1..])
  }

  /** Stripping leaves no combining mark, and adds no `A-Z` letter to a text without one. */
  lemma {:induction false} StripDiacriticsClean(s: string)
    ensures forall i :: 0 <= i < |StripDiacritics(s)| ==> !IsCombiningMark(StripDiacritics(s)[i])
    ensures NoUpperAscii(s) ==> NoUpperAscii(StripDiacritics(s))
  {
    if s != [] {
      StripDiacriticsClean(s[1..]);
      var head, tail := StripChar(s[0]), StripDiacritics(s[1..]);
      assert forall c :: c in head + tail ==> c in head || c in tail;
      assert s[0] in s && forall c :: c in s[1..] ==> c in s;
    }
  }

  /** A text with no accented lower-case letter and no combining mark is stripped to itself. */
  lemma {:induction false} StripDiacriticsFixes(s: string)
    requires forall i :: 0 <= i < |s| ==> s[i] !in LowerLetters && !IsCombiningMark(s[i])
    ensures StripDiacritics(s) == s
  {
    if s != [] {
      StripDiacriticsFixes(s[1..]);
      assert s == [s[0]] + s[1..];
    }
  }

  // ------------------------------------------ app.js:141-145, the character filter

  /** `.replace(/đ/g, 'd')`. */
  function ReplaceDStroke(s: string): (r: string)
    ensures |r| == |s| && 'đ' !in r
    ensures forall i :: 0 <= i < |s| ==> (s[i] == 'đ' ==> r[i] == 'd') && (s[i] != 'đ' ==> r[i] == s[i])
  {
    seq(|s|, i requires 0 <= i < |s| => if s[i] == 'đ' then 'd' else s[i])
  }

  /** `.replace(/[^a-z0-9\s]/g, ' ')`. */
  function KeepClass(s: string): (r: string)
    ensures |r| == |s|
    ensures forall i :: 0 <= i < |s| ==>
      (IsLowerAlnum(s[i]) || IsSpace(s[i]) ==> r[i] == s[i]) && (!IsLowerAlnum(s[i]) && !IsSpace(s[i]) ==> r[i] == ' ')
    ensures forall i :: 0 <= i < |s| ==> IsLowerAlnum(r[i]) || IsSpace(r[i])
  {
    seq(|s|, i requires 0 <= i < |s| => if IsLowerAlnum(s[i]) || IsSpace(s[i]) then s[i] else ' ')
  }

  /** The characters of a text that are not `\s`, in order. */
  function NonSpace(s: string): (r: string)
    ensures |r| <= |s| && forall i :: 0 <= i < |r| ==> !IsSpace(r[i])
  {
    if s == [] then [] else (if IsSpace(s[0]) then [] else [s[0]]) + NonSpace(s[1..])
  }

  /** The characters of a text in `[a-z0-9]`, in order. */
  function AlnumOnly(s: string): (r: string)
    ensures |r| <= |s| && forall i :: 0 <= i < |r| ==> IsLowerAlnum(r[i])
  {
    if s == [] then [] else (if IsLowerAlnum(s[0]) then [s[0]] else []) + AlnumOnly(s[1..])
  }

  lemma {:induction false} NonSpaceAppend(a: string, b: string)
    ensures NonSpace(a + b) == NonSpace(a) + NonSpace(b)
    decreases |a|
  {
    if a != [] {
      var h := if IsSpace(a[0]) then [] else [a[0]];
      assert (a + b)[0] == a[0] && (a + b)[1..] == a[1..] + b;
      NonSpaceAppend(a[1..], b);
      assert NonSpace(a + b) == h + (NonSpace(a[1..]) + NonSpace(b));
      assert NonSpace(a) == h + NonSpace(a[1..]);
      assert h + (NonSpace(a[1..]) + NonSpace(b)) == (h + NonSpace(a[1..])) + NonSpace(b);
    } else {
      assert a + b == b;
    }
  }

  lemma {:induction false} NonSpaceOfSpaces(s: string)
    requires forall i :: 0 <= i < |s| ==> IsSpace(s[i])
    ensures NonSpace(s) == []
    decreases |s|
  {
    if s != [] {
      NonSpaceOfSpaces(s[1..]);
    }
  }

  /** Dropping leading whitespace keeps the non-space characters. */
  lemma NonSpaceDrop(s: string, n: nat)
    requires n <= |s| && forall i :: 0 <= i < n ==> IsSpace(s[i])
    ensures NonSpace(s[n..]) == NonSpace(s)
  {
    assert s == s[..n] + s[n..];
    NonSpaceAppend(s[..n], s[n..]);
    NonSpaceOfSpaces(s[..n]);
  }

  /** Trimming keeps the non-space characters. */
  lemma NonSpaceTrim(s: string)
    ensures NonSpace(Trim(s)) == NonSpace(s)
  {
    var k := TrimIsInfix(s);
    var t := Trim(s);
    NonSpaceDrop(s, k);
    var u := s[k..];
    assert u[..|t|] == t;
    assert u == t + u[|t|..];
    NonSpaceAppend(t, u[|t|..]);
    NonSpaceOfSpaces(u[|t|..]);
  }

  /** The class filter turns every character outside `[a-z0-9\s]` into a space, so its non-space characters are the `[a-z0-9]` ones. */
  lemma {:induction false} NonSpaceKeepClass(s: string)
    ensures NonSpace(KeepClass(s)) == AlnumOnly(s)
    decreases |s|
  {
    if s != [] {
      var k := KeepClass(s);
      assert k == [k[0]] + KeepClass(s[1..]);
      NonSpaceAppend([k[0]], KeepClass(s[1..]));
      NonSpaceKeepClass(s[1..]);
    }
  }

  /** The length of the run of `\s` characters that starts `s`. */
  function SpaceRun(s: string): (n: nat)
    ensures 0 < n <= |s| || (n == 0 && (s == [] || !IsSpace(s[0])))
    ensures forall i :: 0 <= i < n ==> IsSpace(s[i])
    ensures n < |s| ==> !IsSpace(s[n])
  {
    if s != [] && IsSpace(s[0]) then 1 + SpaceRun(s[1..]) else 0
  }

  /** `.replace(/\s+/g, ' ')`: every maximal run of `\s` becomes one space. */
  function Collapse(s: string): (r: string)
    decreases |s|
    ensures NonSpace(r) == NonSpace(s)
    ensures OnlyPlainSpace(r) && NoDoubleSpace(r)
    ensures r != [] <==> s != []
    ensures s != [] ==> (r[0] == ' ' <==> IsSpace(s[0]))
  {
    if s == [] then []
    else if IsSpace(s[0]) then
      NonSpaceDrop(s, SpaceRun(s));
      [' '] + Collapse(s[SpaceRun(s)..])
    else [s[0]] + Collapse(s[1..])
  }

  /** Collapsing a text over `[a-z0-9\s]` leaves a text over `[a-z0-9 ]`. */
  lemma {:induction false} CollapseAlphabet(s: string)
    requires forall i :: 0 <= i < |s| ==> IsLowerAlnum(s[i]) || IsSpace(s[i])
    ensures forall i :: 0 <= i < |Collapse(s)| ==> IsLowerAlnum(Collapse(s)[i]) || Collapse(s)[i] == ' '
    decreases |s|
  {
    if s != [] {
      var rest := if IsSpace(s[0]) then s[SpaceRun(s)..] else s[1..];
      CollapseAlphabet(rest);
    }
  }

  predicate NoDoubleSpace(s: string) {
    forall i :: 0 <= i < |s| - 1 ==> !(s[i] == ' ' && s[i + 1] == ' ')
  }

  predicate NoEdgeSpace(s: string) {
    s != [] ==> s[0] != ' ' && s[|s| - 1] != ' '
  }

  /** The only `\s` character present is the plain space. */
  predicate OnlyPlainSpace(s: string) {
    forall i :: 0 <= i < |s| && IsSpace(s[i]) ==> s[i] == ' '
  }

  /** Words separated by single plain spaces, nothing at either end. */
  predicate SpaceCanonical(s: string) {
    OnlyPlainSpace(s) && NoEdgeSpace(s) && NoDoubleSpace(s)
  }

  /** The text only holds `a-z`, `0-9` and single spaces between words. */
  predicate Canonical(s: string) {
    (forall i :: 0 <= i < |s| ==> IsLowerAlnum(s[i]) || s[i] == ' ') && SpaceCanonical(s)
  }

  /**
   * app.js:141-145: `đ` to `d`, every other character outside `[a-z0-9\s]`
   * to a space, collapse, trim. What is left is the `[a-z0-9]` characters of
   * the input, in order, in words separated by single spaces.
   */
  function FilterAndCollapse(s: string): (r: string)
    ensures Canonical(r) && ',' !in r
    ensures NonSpace(r) == AlnumOnly(ReplaceDStroke(s))
  {
    var k := KeepClass(ReplaceDStroke(s));
    CollapseAlphabet(k);
    TrimCanonical(Collapse(k));
    NonSpaceTrim(Collapse(k));
    NonSpaceKeepClass(ReplaceDStroke(s));
    Trim(Collapse(k))
  }

  lemma TrimAlphabet(c: string)
    requires forall i :: 0 <= i < |c| ==> IsLowerAlnum(c[i]) || c[i] == ' '
    ensures forall i :: 0 <= i < |Trim(c)| ==> IsLowerAlnum(Trim(c)[i]) || Trim(c)[i] == ' '
  {
    var off := TrimIsInfix(c);
    assert forall i :: 0 <= i < |Trim(c)| ==> Trim(c)[i] == c[off + i];
  }

  lemma AlphabetOnlyPlainSpace(r: string)
    requires forall i :: 0 <= i < |r| ==> IsLowerAlnum(r[i]) || r[i] == ' '
    ensures OnlyPlainSpace(r)
  {
  }

  lemma TrimCanonical(c: string)
    requires forall i :: 0 <= i < |c| ==> IsLowerAlnum(c[i]) || c[i] == ' '
    requires NoDoubleSpace(c)
    ensures Canonical(Trim(c))
  {
    var off := TrimIsInfix(c);
    TrimAlphabet(c);
    InfixNoDoubleSpace(c, off, off + |Trim(c)|);
    AlphabetOnlyPlainSpace(Trim(c));
  }

  // --------------------------------------------------------------- tables

  /** `this.abbreviations` (app.js:20-31), in key order; `.` in a key is the regex wildcard. */
  const Abbreviations: seq<(Word, string)> := [
    ("tp", "thanh pho"),
    ("tphcm", "thanh pho ho chi minh"),
    ("hn", "ha noi"),
    ("dn", "da nang"),
    ("hcm", "ho chi minh"),
    ("q.", "quan"),
    ("p.", "phuong"),
    ("tx.", "thi xa"),
    ("tt.", "thi tran"),
    ("t.", "tinh")
  ]

  const HaNoi: Word := "thành phố hà nội"
  const HoChiMinh: Word := "thành phố hồ chí minh"
  const DaNang: Word := "thành phố đà nẵng"
  const CanTho: Word := "thành phố cần thơ"
  const HaiPhong: Word := "thành phố hải phòng"

  /** `this.provinceAliases` (app.js:34-48), in key order. */
  const ProvinceAliases: seq<(Word, Word)> := [
    ("hà nội", HaNoi),
    ("tp hà nội", HaNoi),
    ("hà nôi", HaNoi),
    ("hồ chí minh", HoChiMinh),
    ("tp hồ chí minh", HoChiMinh),
    ("tphcm", HoChiMinh),
    ("hcm", HoChiMinh),
    ("đà nẵng", DaNang),
    ("tp đà nẵng", DaNang),
    ("cần thơ", CanTho),
    ("tp cần thơ", CanTho),
    ("hải phòng", HaiPhong),
    ("tp hải phòng", HaiPhong)
  ]

  /** One pass of the abbreviation `forEach`: `replace(new RegExp('\\b' + abbr + '\\b', 'gi'), full)`. */
  function ExpandOne(s: string, entry: (Word, string)): string {
    ReplaceWords(s, [Compile(entry.0)], entry.1)
  }

  /** The text after the first `k` entries of an abbreviation table have been expanded. */
  function ExpandAbbreviations(s: string, table: seq<(Word, string)>, k: nat): string
    requires k <= |table|
  {
    if k == 0 then s else ExpandOne(ExpandAbbreviations(s, table, k - 1), table[k - 1])
  }

  /** One pass of the alias `forEach`: the first occurrence only, and only if present. */
  function AliasOne(s: string, entry: (Word, Word)): string {
    var (alias, full) := entry;
    if Includes(s, alias) then ReplaceFirst(s, alias, full) else s
  }

  /** The text after the first `k` entries of an alias table have been applied. */
  function ApplyAliases(s: string, table: seq<(Word, Word)>, k: nat): string
    requires k <= |table|
  {
    if k == 0 then s else AliasOne(ApplyAliases(s, table, k - 1), table[k - 1])
  }

  /** Every character after the abbreviation pass comes from the text or from an expansion. */
  lemma {:induction false} ExpandProvenance(s: string, table: seq<(Word, string)>, k: nat)
    requires k <= |table|
    ensures forall c :: c in ExpandAbbreviations(s, table, k) ==> c in s || exists j :: 0 <= j < k && c in table[j].1
  {
    if k > 0 {
      ExpandProvenance(s, table, k - 1);
    }
  }

  /** Every character after the alias pass comes from the text or from an expansion. */
  lemma {:induction false} AliasProvenance(s: string, table: seq<(Word, Word)>, k: nat)
    requires k <= |table|
    ensures forall c :: c in ApplyAliases(s, table, k) ==> c in s || exists j :: 0 <= j < k && c in table[j].1
  {
    if k > 0 {
      AliasProvenance(s, table, k - 1);
    }
  }

  /**
   * The whole pipeline of app.js:129-152 on a non-empty string. Whatever the
   * input, the result has words separated by single plain spaces and holds
   * neither a comma nor an `A-Z` letter.
   */
  function Normalize(s: string): (r: string)
    ensures SpaceCanonical(r) && ',' !in r && NoUpperAscii(r)
  {
    var lowered := Lowercase(s);
    var expanded := ExpandAbbreviations(lowered, Abbreviations, |Abbreviations|);
    var filtered := FilterAndCollapse(StripDiacritics(expanded));
    CanonicalNoUpperAscii(filtered);
    ProvinceAliasesShaped();
    AliasesKeepShape(filtered, ProvinceAliases, |ProvinceAliases|);
    ApplyAliases(filtered, ProvinceAliases, |ProvinceAliases|)
  }

  /**
   * `normalizeText(text)`: `''` for a non-string or empty argument, otherwise
   * the pipeline; the result is always space-canonical and comma-free.
   */
  function NormalizeText(v: JsValue): (r: string)
    ensures v == NonString || v == Str("") ==> r == ""
    ensures SpaceCanonical(r) && ',' !in r && NoUpperAscii(r)
  {
    match v
    case NonString => ""
    case Str(s) =>
      if s == "" then ""
      else
        Normalize(s)
  }

  // --------------------------------------------------------------- lemmas

  /** Two texts without double spaces join without one when the seam is not two spaces. */
  lemma ConcatNoDoubleSpace(a: string, b: string)
    requires NoDoubleSpace(a) && NoDoubleSpace(b)
    requires a == [] || b == [] || a[|a| - 1] != ' ' || b[0] != ' '
    ensures NoDoubleSpace(a + b)
  {
    var r := a + b;
    forall i | 0 <= i < |r| - 1
      ensures !(r[i] == ' ' && r[i + 1] == ' ')
    {
      if i + 1 < |a| {
        assert r[i] == a[i] && r[i + 1] == a[i + 1];
      } else if i >= |a| {
        assert r[i] == b[i - |a|] && r[i + 1] == b[i + 1 - |a|];
      }
    }
  }

  lemma InfixNoDoubleSpace(s: string, i: nat, j: nat)
    requires i <= j <= |s| && NoDoubleSpace(s)
    ensures NoDoubleSpace(s[i..j])
  {
    var r := s[i..j];
    forall k | 0 <= k < |r| - 1
      ensures !(r[k] == ' ' && r[k + 1] == ' ')
    {
      assert r[k] == s[i + k] && r[k + 1] == s[i + k + 1];
    }
  }

  lemma ConcatOnlyPlainSpace(a: string, b: string)
    requires OnlyPlainSpace(a) && OnlyPlainSpace(b)
    ensures OnlyPlainSpace(a + b)
  {
    var r := a + b;
    forall i | 0 <= i < |r| && IsSpace(r[i])
      ensures r[i] == ' '
    {
      if i < |a| { assert r[i] == a[i]; } else { assert r[i] == b[i - |a|]; }
    }
  }

  lemma InfixOnlyPlainSpace(s: string, i: nat, j: nat)
    requires i <= j <= |s| && OnlyPlainSpace(s)
    ensures OnlyPlainSpace(s[i..j])
  {
    var r := s[i..j];
    forall k | 0 <= k < |r| && IsSpace(r[k])
      ensures r[k] == ' '
    {
      assert r[k] == s[i + k];
    }
  }

  /** A space-canonical text between two pieces that start and end without a space stays space-canonical. */
  lemma JoinShape(pre: string, v: string, post: string)
    requires NoDoubleSpace(pre) && OnlyPlainSpace(pre) && ',' !in pre && (pre == [] || pre[0] != ' ')
    requires NoDoubleSpace(post) && OnlyPlainSpace(post) && ',' !in post && (post == [] || post[|post| - 1] != ' ')
    requires SpaceCanonical(v) && ',' !in v && v != []
    ensures SpaceCanonical(pre + v + post) && ',' !in pre + v + post
  {
    ConcatNoDoubleSpace(pre, v);
    ConcatNoDoubleSpace(pre + v, post);
    ConcatOnlyPlainSpace(pre, v);
    ConcatOnlyPlainSpace(pre + v, post);
    var r := pre + v + post;
    assert r[0] != ' ' by {
      if pre != [] { assert r[0] == pre[0]; } else { assert r[0] == v[0]; }
    }
    assert r[|r| - 1] != ' ' by {
      if post != [] { assert r[|r| - 1] == post[|post| - 1]; } else { assert r[|r| - 1] == v[|v| - 1]; }
    }
    assert forall c :: c in r ==> c in pre || c in v || c in post;
  }

  /** Putting a space-canonical text in place of `n` characters at `k` keeps the text space-canonical. */
  lemma SpliceKeepsShape(s: string, k: nat, n: nat, v: string)
    requires k + n <= |s| && SpaceCanonical(s) && ',' !in s
    requires SpaceCanonical(v) && ',' !in v && v != []
    ensures SpaceCanonical(s[..k] + v + s[k + n..]) && ',' !in s[..k] + v + s[k + n..]
  {
    var pre, post := s[..k], s[k + n..];
    InfixNoDoubleSpace(s, 0, k);
    InfixNoDoubleSpace(s, k + n, |s|);
    InfixOnlyPlainSpace(s, 0, k);
    InfixOnlyPlainSpace(s, k + n, |s|);
    assert pre != [] ==> pre[0] == s[0];
    assert post != [] ==> post[|post| - 1] == s[|s| - 1];
    assert forall c :: c in pre || c in post ==> c in s;
    JoinShape(pre, v, post);
  }

  /** Replacing a substring by a non-empty space-canonical text keeps the text space-canonical. */
  lemma ReplaceFirstKeepsShape(s: string, t: string, v: string)
    requires SpaceCanonical(s) && ',' !in s
    requires SpaceCanonical(v) && ',' !in v && v != []
    ensures SpaceCanonical(ReplaceFirst(s, t, v)) && ',' !in ReplaceFirst(s, t, v)
  {
    if Includes(s, t) {
      ReplaceFirstSplices(s, t, v);
      SpliceKeepsShape(s, IndexOf(s, t).value, |t|, v);
    }
  }

  lemma HaNoiShape() ensures SpaceCanonical(HaNoi) && ',' !in HaNoi && NoUpperAscii(HaNoi) {}
  lemma HoChiMinhShape() ensures SpaceCanonical(HoChiMinh) && ',' !in HoChiMinh && NoUpperAscii(HoChiMinh) {}
  lemma DaNangShape() ensures SpaceCanonical(DaNang) && ',' !in DaNang && NoUpperAscii(DaNang) {}
  lemma CanThoShape() ensures SpaceCanonical(CanTho) && ',' !in CanTho && NoUpperAscii(CanTho) {}
  lemma HaiPhongShape() ensures SpaceCanonical(HaiPhong) && ',' !in HaiPhong && NoUpperAscii(HaiPhong) {}

  /** An alias table whose expansions are non-empty, space-canonical and comma-free. */
  predicate ShapedExpansions(table: seq<(Word, Word)>) {
    forall k :: 0 <= k < |table| ==>
      table[k].1 != [] && SpaceCanonical(table[k].1) && ',' !in table[k].1 && NoUpperAscii(table[k].1)
  }

  /** Every expansion of `this.provinceAliases` is non-empty, space-canonical, comma-free and lower-case. */
  lemma ProvinceAliasesShaped()
    ensures ShapedExpansions(ProvinceAliases)
  {
    HaNoiShape();
    HoChiMinhShape();
    DaNangShape();
    CanThoShape();
    HaiPhongShape();
  }

  /** The alias pass keeps the text space-canonical, comma-free and free of `A-Z`. */
  lemma {:induction false} AliasesKeepShape(s: string, table: seq<(Word, Word)>, k: nat)
    requires k <= |table| && ShapedExpansions(table)
    requires SpaceCanonical(s) && ',' !in s && NoUpperAscii(s)
    ensures SpaceCanonical(ApplyAliases(s, table, k)) && ',' !in ApplyAliases(s, table, k)
    ensures NoUpperAscii(ApplyAliases(s, table, k))
  {
    if k > 0 {
      AliasesKeepShape(s, table, k - 1);
      var (alias, full) := table[k - 1];
      ReplaceFirstKeepsShape(ApplyAliases(s, table, k - 1), alias, full);
    }
  }

  lemma CanonicalNoUpperAscii(s: string)
    requires Canonical(s)
    ensures NoUpperAscii(s)
  {
  }
}
