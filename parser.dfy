/**
 * `parseAddressSmart` (app.js:158-309) as a specification: split the
 * normalized text on commas, classify each fragment by keyword or by
 * position, fall back on the regular-expression patterns, strip marker
 * words and clamp the confidence.
 */
module Parser {
  import opened JsText
  import opened Normalizer
  import opened Fallback

  /** The kinds a fragment can be given (`type` in the source). */
  datatype Kind = Province | District | Ward | Hamlet | Street

  /** `this.keywords` (app.js:12-17): levels and their keywords in declaration order. */
  const Keywords: seq<(Kind, seq<Word>)> := [
    (Province, ["tỉnh", "tp", "thành phố", "t.", "thanh pho"]),
    (District, ["huyện", "quận", "tx", "thị xã", "q.", "huyen", "quan"]),
    (Ward, ["xã", "phường", "p.", "tt", "thị trấn", "xa", "phuong", "thi tran"]),
    (Hamlet, ["ấp", "thôn", "bản", "làng", "tổ", "khóm", "khu phố", "ap", "thon"])
  ]

  /** One entry of `analyzedParts`. */
  datatype Analyzed = Analyzed(part: string, kind: Kind, value: string)

  /** The object `parseAddressSmart` returns. */
  datatype ParsedAddress = ParsedAddress(
    original: string,
    province: string,
    district: string,
    ward: string,
    hamlet: string,
    street: string,
    normalized: string,
    confidence: real,
    analyzedParts: seq<Analyzed>)

  /** The record returned for blank input (app.js:161-172). */
  const Blank := ParsedAddress("", "", "", "", "", "", "", 0.0, [])

  // ---------------------------------------------------------- keyword search

  /** The first of `words`, from the `j`-th on, that `part` includes. */
  function KeywordInLevel(part: string, words: seq<Word>, j: nat): (r: Option<nat>)
    decreases |words| - j
    ensures r.Some? ==> j <= r.value < |words| && Includes(part, words[r.value])
    ensures r.Some? ==> forall j' :: j <= j' < r.value ==> !Includes(part, words[j'])
    ensures r.None? ==> forall j' :: j <= j' < |words| ==> !Includes(part, words[j'])
  {
    if j >= |words| then None
    else if Includes(part, words[j]) then Some(j)
    else KeywordInLevel(part, words, j + 1)
  }

  /**
   * The nested `for ... of` with its two `break`s (app.js:192-202) over a
   * keyword table: levels in order, within a level keywords in order; the
   * first keyword `part` includes wins. The result is the pair (level,
   * keyword) as indices into `table`.
   */
  function FindKeyword(part: string, table: seq<(Kind, seq<Word>)>, l: nat): (r: Option<(nat, nat)>)
    decreases |table| - l
    ensures r.Some? ==> l <= r.value.0 < |table| && r.value.1 < |table[r.value.0].1|
    ensures r.Some? ==> Includes(part, table[r.value.0].1[r.value.1])
    ensures r.Some? ==> forall j :: 0 <= j < r.value.1 ==> !Includes(part, table[r.value.0].1[j])
    ensures r.Some? ==> forall l', j :: l <= l' < r.value.0 && 0 <= j < |table[l'].1| ==> !Includes(part, table[l'].1[j])
    ensures r.None? ==> forall l', j :: l <= l' < |table| && 0 <= j < |table[l'].1| ==> !Includes(part, table[l'].1[j])
  {
    if l >= |table| then None
    else match KeywordInLevel(part, table[l].1, 0)
      case Some(j) => Some((l, j))
      case None => FindKeyword(part, table, l + 1)
  }

  // ------------------------------------------------------------ classification

  /** `part.match(/^\d+/)`. */
  predicate StartsWithDigit(part: string) {
    part != [] && IsDigit(part[0])
  }

  /** The kind, value and confidence increment of fragment `i` of `n`, given the keyword table (app.js:186-231). */
  function Classify(part: string, table: seq<(Kind, seq<Word>)>, i: nat, n: nat): (Kind, string, real)
    requires i < n
  {
    match FindKeyword(part, table, 0)
    case Some((l, j)) =>
      (table[l].0, Trim(ReplaceWords(part, [Compile(table[l].1[j])], "")), 0.1)
    case None =>
      if i == n - 1 then (Province, part, 0.05)
      else if i == n - 2 then (District, part, 0.05)
      else if i == n - 3 then (Ward, part, 0.05)
      else if StartsWithDigit(part) then (Street, part, 0.0)
      else (Hamlet, part, 0.0)
  }

  /**
   * A fragment with a keyword gets the kind of the keyword's level and 0.1;
   * one without keeps its text and is placed by position: last the province,
   * then the district, then the ward, each for 0.05; earlier ones are a
   * street when they start with a digit and a hamlet otherwise, for nothing.
   * With a keyword the value is the fragment with every whole-word occurrence
   * of that keyword removed, trimmed; either way it holds only characters of
   * the fragment.
   */
  lemma ClassifySpec(part: string, table: seq<(Kind, seq<Word>)>, i: nat, n: nat)
    requires i < n
    ensures var r := Classify(part, table, i, n);
      && (0.0 <= r.2 <= 0.1)
      && (r.2 == 0.1 <==> FindKeyword(part, table, 0).Some?)
      && (FindKeyword(part, table, 0).Some? ==> r.0 == table[FindKeyword(part, table, 0).value.0].0)
      && (FindKeyword(part, table, 0).None? ==> r.1 == part)
      && (FindKeyword(part, table, 0).None? ==> (r.2 == 0.05 <==> i + 3 >= n))
      && (FindKeyword(part, table, 0).None? && i == n - 1 ==> r.0 == Province)
      && (FindKeyword(part, table, 0).None? && i == n - 2 ==> r.0 == District)
      && (FindKeyword(part, table, 0).None? && i == n - 3 ==> r.0 == Ward)
      && (FindKeyword(part, table, 0).None? && i + 3 < n ==> (r.0 == Street <==> StartsWithDigit(part)) && r.0 in {Street, Hamlet})
      && (FindKeyword(part, table, 0).Some? ==> var (l, j) := FindKeyword(part, table, 0).value;
            r.1 == Trim(ReplaceWords(part, [Compile(table[l].1[j])], "")))
      && (forall c :: c in r.1 ==> c in part)
  {
    if FindKeyword(part, table, 0).Some? {
      var (l, j) := FindKeyword(part, table, 0).value;
      TrimProvenance(ReplaceWords(part, [Compile(table[l].1[j])], ""));
    }
  }

  /** The locals `province` ... `street`, `confidence` and `analyzedParts` while parsing. */
  datatype Fields = Fields(
    province: string,
    district: string,
    ward: string,
    hamlet: string,
    street: string,
    confidence: real,
    analyzed: seq<Analyzed>)

  const Start := Fields("", "", "", "", "", 0.5, [])

  /** The local of kind `kind`. */
  function FieldOf(f: Fields, kind: Kind): string {
    match kind
    case Province => f.province
    case District => f.district
    case Ward => f.ward
    case Hamlet => f.hamlet
    case Street => f.street
  }

  /** The `switch (type)` assignment and the `push` onto `analyzedParts` (app.js:229-247). */
  function Assign(f: Fields, part: string, kind: Kind, value: string, delta: real): Fields
  {
    Fields(
      if kind == Province then value else f.province,
      if kind == District then value else f.district,
      if kind == Ward then value else f.ward,
      if kind == Hamlet then value else f.hamlet,
      if kind == Street then value else f.street,
      f.confidence + delta,
      f.analyzed + [Analyzed(part, kind, value)])
  }

  /**
   * The local of the fragment's kind takes the value, every other local keeps
   * its own, the confidence grows by the increment and the entry is pushed.
   */
  lemma AssignSpec(f: Fields, part: string, kind: Kind, value: string, delta: real)
    ensures var r := Assign(f, part, kind, value, delta);
      && FieldOf(r, kind) == value
      && (forall k :: k != kind ==> FieldOf(r, k) == FieldOf(f, k))
      && r.confidence == f.confidence + delta
      && r.analyzed == f.analyzed + [Analyzed(part, kind, value)]
  {
  }

  /** The entry `analyzedParts` receives for fragment `i`. */
  function Entry(table: seq<(Kind, seq<Word>)>, parts: seq<string>, i: nat): Analyzed
    requires i < |parts|
  {
    var c := Classify(parts[i], table, i, |parts|);
    Analyzed(parts[i], c.0, c.1)
  }

  /** The value of the last entry of kind `kind`, or `''` when there is none. */
  function LastValue(entries: seq<Analyzed>, kind: Kind): string {
    if entries == [] then ""
    else if entries[|entries| - 1].kind == kind then entries[|entries| - 1].value
    else LastValue(entries[..|entries| - 1], kind)
  }

  /** How many of the first `k` fragments contain a keyword. */
  function KeywordCount(table: seq<(Kind, seq<Word>)>, parts: seq<string>, k: nat): nat
    requires k <= |parts|
  {
    if k == 0 then 0
    else KeywordCount(table, parts, k - 1) + if FindKeyword(parts[k - 1], table, 0).Some? then 1 else 0
  }

  /** How many of the first `k` fragments lack a keyword and are among the last three. */
  function GuessCount(table: seq<(Kind, seq<Word>)>, parts: seq<string>, k: nat): nat
    requires k <= |parts|
  {
    if k == 0 then 0
    else GuessCount(table, parts, k - 1) + if FindKeyword(parts[k - 1], table, 0).None? && k + 2 >= |parts| then 1 else 0
  }

  /** The classification of every fragment, in order. */
  function Classifications(table: seq<(Kind, seq<Word>)>, parts: seq<string>): (cs: seq<(Kind, string, real)>)
    ensures |cs| == |parts|
    ensures forall i :: 0 <= i < |parts| ==> cs[i] == Classify(parts[i], table, i, |parts|)
  {
    seq(|parts|, i requires 0 <= i < |parts| => Classify(parts[i], table, i, |parts|))
  }

  /** The locals after assigning the first `k` fragments with their classifications `cs`. */
  function AssignAll(parts: seq<string>, cs: seq<(Kind, string, real)>, k: nat): Fields
    requires |cs| == |parts| && k <= |parts|
  {
    if k == 0 then Start
    else Assign(AssignAll(parts, cs, k - 1), parts[k - 1], cs[k - 1].0, cs[k - 1].1, cs[k - 1].2)
  }

  /** The sum of the first `k` confidence increments. */
  function Increments(cs: seq<(Kind, string, real)>, k: nat): real
    requires k <= |cs|
  {
    if k == 0 then 0.0 else Increments(cs, k - 1) + cs[k - 1].2
  }

  /** The locals after the first `k` fragments, each classified and assigned in turn. */
  function ClassifyParts(table: seq<(Kind, seq<Word>)>, parts: seq<string>, k: nat): Fields
    requires k <= |parts|
  {
    AssignAll(parts, Classifications(table, parts), k)
  }

  /**
   * What the locals hold after the first `k` fragments: one entry per
   * fragment in order, each local holding the value of the last entry of its
   * kind, and the confidence raised by 0.1 per keyword fragment and by 0.05
   * per fragment placed by position among the last three.
   */
  lemma ClassifyPartsSpec(table: seq<(Kind, seq<Word>)>, parts: seq<string>, k: nat)
    requires k <= |parts|
    ensures var r := ClassifyParts(table, parts, k);
      && |r.analyzed| == k && (forall i :: 0 <= i < k ==> r.analyzed[i] == Entry(table, parts, i))
      && (forall kind :: FieldOf(r, kind) == LastValue(r.analyzed, kind))
      && r.confidence == 0.5 + 0.1 * KeywordCount(table, parts, k) as real + 0.05 * GuessCount(table, parts, k) as real
  {
    var cs := Classifications(table, parts);
    AssignAllEntries(parts, cs, k);
    forall kind
      ensures FieldOf(ClassifyParts(table, parts, k), kind) == LastValue(ClassifyParts(table, parts, k).analyzed, kind)
    {
      AssignAllLast(parts, cs, k, kind);
    }
    AssignAllConfidence(parts, cs, k);
    IncrementsCount(table, parts, k);
  }

  /** One entry per fragment, in order, from its classification. */
  lemma {:induction false} AssignAllEntries(parts: seq<string>, cs: seq<(Kind, string, real)>, k: nat)
    requires |cs| == |parts| && k <= |parts|
    ensures var a := AssignAll(parts, cs, k).analyzed;
      |a| == k && forall i :: 0 <= i < k ==> a[i] == Analyzed(parts[i], cs[i].0, cs[i].1)
  {
    if k > 0 {
      AssignAllEntries(parts, cs, k - 1);
      AssignSpec(AssignAll(parts, cs, k - 1), parts[k - 1], cs[k - 1].0, cs[k - 1].1, cs[k - 1].2);
    }
  }

  /** The local of kind `kind` holds the value of the last entry of that kind. */
  lemma {:induction false} AssignAllLast(parts: seq<string>, cs: seq<(Kind, string, real)>, k: nat, kind: Kind)
    requires |cs| == |parts| && k <= |parts|
    ensures FieldOf(AssignAll(parts, cs, k), kind) == LastValue(AssignAll(parts, cs, k).analyzed, kind)
  {
    if k > 0 {
      AssignAllLast(parts, cs, k - 1, kind);
      var f := AssignAll(parts, cs, k - 1);
      var e := Analyzed(parts[k - 1], cs[k - 1].0, cs[k - 1].1);
      AssignSpec(f, parts[k - 1], cs[k - 1].0, cs[k - 1].1, cs[k - 1].2);
      LastValueSnoc(f.analyzed, e, kind);
    }
  }

  /** The confidence is 0.5 plus the increments so far. */
  lemma {:induction false} AssignAllConfidence(parts: seq<string>, cs: seq<(Kind, string, real)>, k: nat)
    requires |cs| == |parts| && k <= |parts|
    ensures AssignAll(parts, cs, k).confidence == 0.5 + Increments(cs, k)
  {
    if k > 0 {
      AssignAllConfidence(parts, cs, k - 1);
      AssignSpec(AssignAll(parts, cs, k - 1), parts[k - 1], cs[k - 1].0, cs[k - 1].1, cs[k - 1].2);
    }
  }

  /** The increments add 0.1 per keyword fragment and 0.05 per fragment placed by position. */
  lemma {:induction false} IncrementsCount(table: seq<(Kind, seq<Word>)>, parts: seq<string>, k: nat)
    requires k <= |parts|
    ensures Increments(Classifications(table, parts), k) ==
      0.1 * KeywordCount(table, parts, k) as real + 0.05 * GuessCount(table, parts, k) as real
  {
    if k > 0 {
      IncrementsCount(table, parts, k - 1);
      ClassifyIncrement(parts[k - 1], table, k - 1, |parts|);
    }
  }

  /** One more fragment: the locals after `k + 1` fragments are those after `k` with fragment `k` assigned. */
  lemma ClassifyPartsNext(table: seq<(Kind, seq<Word>)>, parts: seq<string>, k: nat)
    requires k < |parts|
    ensures var c := Classify(parts[k], table, k, |parts|);
      ClassifyParts(table, parts, k + 1) == Assign(ClassifyParts(table, parts, k), parts[k], c.0, c.1, c.2)
  {
  }

  /** The last entry of a kind is the one just pushed, if it has that kind. */
  lemma LastValueSnoc(entries: seq<Analyzed>, e: Analyzed, kind: Kind)
    ensures LastValue(entries + [e], kind) == if e.kind == kind then e.value else LastValue(entries, kind)
  {
    assert (entries + [e])[..|entries|] == entries;
  }

  /** The increment of a fragment: 0.1 with a keyword, 0.05 placed by position among the last three, 0 otherwise. */
  lemma ClassifyIncrement(part: string, table: seq<(Kind, seq<Word>)>, i: nat, n: nat)
    requires i < n
    ensures Classify(part, table, i, n).2 ==
      (if FindKeyword(part, table, 0).Some? then 0.1 else if i + 3 >= n then 0.05 else 0.0)
  {
  }

  /** `filter(p => p)`: the non-empty pieces, in order. */
  function NonEmpty(ps: seq<string>): (r: seq<string>)
    ensures |r| <= |ps|
    ensures forall x :: x in r <==> x in ps && x != ""
  {
    if ps == [] then []
    else if ps[0] == "" then NonEmpty(ps[1..])
    else [ps[0]] + NonEmpty(ps[1..])
  }

  /** `filter` works piece by piece: it distributes over concatenation, so order is kept. */
  lemma {:induction false} NonEmptyAppend(a: seq<string>, b: seq<string>)
    ensures NonEmpty(a + b) == NonEmpty(a) + NonEmpty(b)
    decreases |a|
  {
    if a == [] {
      assert a + b == b;
    } else {
      assert (a + b)[0] == a[0] && (a + b)[1..] == a[1..] + b;
      NonEmptyAppend(a[1..], b);
    }
  }

  /** `map(p => p.trim())`. */
  function TrimAll(ps: seq<string>): (r: seq<string>)
    ensures |r| == |ps| && forall i :: 0 <= i < |ps| ==> r[i] == Trim(ps[i])
  {
    seq(|ps|, i requires 0 <= i < |ps| => Trim(ps[i]))
  }

  /** Trimmed comma-free pieces are comma-free and trimmed. */
  lemma TrimAllPieces(ps: seq<string>)
    requires forall i :: 0 <= i < |ps| ==> ',' !in ps[i]
    ensures forall p :: p in TrimAll(ps) ==> ',' !in p && Trim(p) == p
  {
    forall i | 0 <= i < |ps|
      ensures ',' !in Trim(ps[i])
    {
      TrimProvenance(ps[i]);
    }
  }

  /** A text without a comma is one piece, kept when it is not blank. */
  lemma CommaFreePieces(s: string)
    ensures ',' !in s ==> NonEmpty(TrimAll(Split(s, ','))) == if Trim(s) == "" then [] else [Trim(s)]
  {
    if ',' !in s {
      SplitWithoutSeparator(s, ',');
      assert TrimAll(Split(s, ',')) == [Trim(s)];
      assert NonEmpty([Trim(s)]) == (if Trim(s) == "" then [] else [Trim(s)] + NonEmpty([]));
    }
  }

  /**
   * `normalized.split(',').map(p => p.trim()).filter(p => p)` (app.js:178):
   * non-empty, comma-free, trimmed pieces; a text without a comma gives its
   * trimmed self, or nothing when that is empty.
   */
  function CommaParts(normalized: string): (r: seq<string>)
    ensures forall p :: p in r ==> p != "" && ',' !in p && Trim(p) == p
    ensures ',' !in normalized ==> r == if Trim(normalized) == "" then [] else [Trim(normalized)]
  {
    TrimAllPieces(Split(normalized, ','));
    CommaFreePieces(normalized);
    NonEmpty(TrimAll(Split(normalized, ',')))
  }

  // ---------------------------------------------------------------- fallback

  /** JavaScript `a || b` on strings and `undefined`. */
  function Or(a: Option<string>, b: string): string {
    if a.Some? && a.value != "" then a.value else b
  }

  /** Does the first guard of app.js:269-272 hold: ward still empty and slot 1 a ward marker? */
  predicate FillsWard(f: Fields, m: Slots) { f.ward == "" && IsWardMarker(m.m1) }

  /** The second guard (app.js:273-276), evaluated after the first assignment, which never touches the district. */
  predicate FillsDistrict(f: Fields, m: Slots) { f.district == "" && IsDistrictMarker(m.m3) }

  /** The third guard (app.js:277-280). */
  predicate FillsProvince(f: Fields, m: Slots) { f.province == "" }

  /** How many of the three fields the slots fill. */
  function Fills(f: Fields, m: Slots): nat {
    (if FillsWard(f, m) then 1 else 0) + (if FillsDistrict(f, m) then 1 else 0) + (if FillsProvince(f, m) then 1 else 0)
  }

  /**
   * The three guarded assignments of app.js:269-280, index for index: an
   * empty ward takes slot 2 after a ward marker, an empty district slot 4
   * (slot 2 when that is empty) after a district marker, an empty province
   * slot 5, else slot 4, else slot 3; each fill adds 0.1.
   */
  function ApplySlots(f: Fields, m: Slots): (r: Fields)
    ensures FillsWard(f, m) ==> r.ward == m.m2
    ensures !FillsWard(f, m) ==> r.ward == f.ward
    ensures FillsDistrict(f, m) ==> r.district == if m.m4 != "" then m.m4 else m.m2
    ensures !FillsDistrict(f, m) ==> r.district == f.district
    ensures FillsProvince(f, m) ==>
      r.province == if m.m5.Some? && m.m5.value != "" then m.m5.value else if m.m4 != "" then m.m4 else m.m3
    ensures !FillsProvince(f, m) ==> r.province == f.province
    ensures r.hamlet == f.hamlet && r.street == f.street && r.analyzed == f.analyzed
    ensures r.confidence == f.confidence + 0.1 * Fills(f, m) as real
  {
    var f1 := if f.ward == "" && IsWardMarker(m.m1) then f.(ward := m.m2, confidence := f.confidence + 0.1) else f;
    var f2 := if f1.district == "" && IsDistrictMarker(m.m3) then f1.(district := Or(Some(m.m4), m.m2), confidence := f1.confidence + 0.1) else f1;
    if f2.province == "" then f2.(province := Or(m.m5, Or(Some(m.m4), m.m3)), confidence := f2.confidence + 0.1) else f2
  }

  /** Is one of province, district and ward still empty, so that step 4 runs (app.js:251)? */
  predicate Incomplete(f: Fields) {
    f.province == "" || f.district == "" || f.ward == ""
  }

  /** How many fields step 4 fills: those the first matching pattern fills, if it runs and a pattern matches. */
  function FallbackFills(f: Fields, normalized: string): nat {
    if Incomplete(f) && FirstMatch(normalized).Some? then Fills(f, FirstMatch(normalized).value.1) else 0
  }

  /**
   * Step 4 of the source: only when one of province, district, ward is still
   * empty, and then with the slots of the first pattern that matches; no
   * filled field is overwritten and each fill adds 0.1.
   */
  function WithFallback(f: Fields, normalized: string): (r: Fields)
    ensures !Incomplete(f) || FirstMatch(normalized).None? ==> r == f
    ensures Incomplete(f) && FirstMatch(normalized).Some? ==> r == ApplySlots(f, FirstMatch(normalized).value.1)
    ensures f.province != "" ==> r.province == f.province
    ensures f.district != "" ==> r.district == f.district
    ensures f.ward != "" ==> r.ward == f.ward
    ensures r.hamlet == f.hamlet && r.street == f.street && r.analyzed == f.analyzed
    ensures r.confidence == f.confidence + 0.1 * FallbackFills(f, normalized) as real
    ensures forall kind :: FieldOf(f, kind) != "" ==> FieldOf(r, kind) == FieldOf(f, kind)
  {
    if Incomplete(f) && FirstMatch(normalized).Some? then
      var r := ApplySlots(f, FirstMatch(normalized).value.1);
      assert forall kind :: FieldOf(f, kind) != "" ==> FieldOf(r, kind) == FieldOf(f, kind) by {
        forall kind | FieldOf(f, kind) != ""
          ensures FieldOf(r, kind) == FieldOf(f, kind)
        {
          if kind.Province? {} else if kind.District? {} else if kind.Ward? {} else if kind.Hamlet? {} else {}
        }
      }
      r
    else f
  }

  // -------------------------------------------------------------- post-process

  /** The alternatives of `clean` (app.js:287), in order. */
  // tinh | thanh pho | huyen | quan | xa | phuong | ap | thon, spelled out character by character
  const MarkerWords: seq<Pattern> := [
    [Lit('t'), Lit('i'), Lit('n'), Lit('h')],
    [Lit('t'), Lit('h'), Lit('a'), Lit('n'), Lit('h'), Lit(' '), Lit('p'), Lit('h'), Lit('o')],
    [Lit('h'), Lit('u'), Lit('y'), Lit('e'), Lit('n')],
    [Lit('q'), Lit('u'), Lit('a'), Lit('n')],
    [Lit('x'), Lit('a')],
    [Lit('p'), Lit('h'), Lit('u'), Lit('o'), Lit('n'), Lit('g')],
    [Lit('a'), Lit('p')],
    [Lit('t'), Lit('h'), Lit('o'), Lit('n')]
  ]

  /**
   * `clean`: remove every whole marker word, then trim. A text without a
   * marker word is only trimmed, and nothing new appears.
   */
  function Clean(s: string): (r: string)
    ensures r != [] ==> !IsSpace(r[0]) && !IsSpace(r[|r| - 1])
    ensures NoWordFrom(s, MarkerWords, 0) ==> r == Trim(s)
    ensures forall c :: c in r ==> c in s
  {
    TrimProvenance(ReplaceWords(s, MarkerWords, ""));
    Trim(ReplaceWords(s, MarkerWords, ""))
  }

  /** Every marker word begins and ends with a letter, and its only non-letter is the single space of "thanh pho". */
  lemma MarkerWordsFenced()
    ensures AllFenced(MarkerWords)
  {
    forall k | 0 <= k < |MarkerWords| ensures Fenced(MarkerWords[k]) {
      var p := MarkerWords[k];
      assert forall q :: 0 <= q < |p| && q != 5 ==> WordLit(p[q]);
    }
  }

  /** After `clean` no marker word is left anywhere as a whole word, wherever the text came from. */
  lemma CleanLeavesNoMarker(s: string)
    ensures NoWordFrom(Clean(s), MarkerWords, 0)
  {
    MarkerWordsFenced();
    EraseWordsTrim(s, MarkerWords);
  }

  /** `Math.min(Math.max(x, 0), 1)`. */
  function Clamp(x: real): (r: real)
    ensures 0.0 <= r <= 1.0
    ensures 0.0 <= x <= 1.0 ==> r == x
  {
    if x < 0.0 then 0.0 else if x > 1.0 then 1.0 else x
  }

  /** The locals after the fragment loop over the normalized text (steps 2 and 3). */
  function Classified(normalized: string): Fields {
    var parts := CommaParts(normalized);
    ClassifyParts(Keywords, parts, |parts|)
  }

  /**
   * Steps 2 to 4 on the normalized text: the locals before cleaning and
   * clamping. Normalized text is one fragment, or none when it is empty; that
   * fragment is classified as the last one, its value goes to the field of
   * its kind, which the fallback cannot overwrite once set, and the
   * confidence is 0.5 plus the fragment's increment plus 0.1 per fallback fill.
   */
  function Analyze(normalized: string): (f: Fields)
    requires SpaceCanonical(normalized) && ',' !in normalized
    ensures f.confidence >= 0.5
    ensures normalized == "" ==> f.analyzed == [] && f.confidence == 0.5 + 0.1 * FallbackFills(Start, normalized) as real
    ensures normalized != "" ==> var c := Classify(normalized, Keywords, 0, 1);
      && f.analyzed == [Analyzed(normalized, c.0, c.1)]
      && (c.1 != "" ==> FieldOf(f, c.0) == c.1)
      && f.confidence == 0.5 + c.2 + 0.1 * FallbackFills(Classified(normalized), normalized) as real
  {
    ClassifiedNormalized(normalized);
    WithFallback(Classified(normalized), normalized)
  }

  /** The field of the returned object for kind `kind`. */
  function ParsedField(p: ParsedAddress, kind: Kind): string {
    match kind
    case Province => p.province
    case District => p.district
    case Ward => p.ward
    case Hamlet => p.hamlet
    case Street => p.street
  }

  /** Step 5 and the returned object (app.js:286-308): every field cleaned, the confidence clamped. */
  function Finish(original: string, normalized: string, f: Fields): (r: ParsedAddress)
    ensures forall kind :: ParsedField(r, kind) == Clean(FieldOf(f, kind))
    ensures r.original == original && r.normalized == normalized && r.analyzedParts == f.analyzed
    ensures r.confidence == Clamp(f.confidence)
  {
    var r := ParsedAddress(original, Clean(f.province), Clean(f.district), Clean(f.ward),
                           Clean(f.hamlet), Clean(f.street), normalized, Clamp(f.confidence), f.analyzed);
    assert forall kind :: ParsedField(r, kind) == Clean(FieldOf(f, kind)) by {
      forall kind
        ensures ParsedField(r, kind) == Clean(FieldOf(f, kind))
      {
        if kind.Province? {
        } else if kind.District? {
        } else if kind.Ward? {
        } else if kind.Hamlet? {
        }
      }
    }
    r
  }

  /**
   * Steps 1 to 5 on a trimmed, non-blank text: the result keeps the text and
   * its normalization, every field is the cleaned local, the value of the
   * fragment goes cleaned to the field of its kind, and the confidence is 0.5
   * plus the fragment's increment plus 0.1 per fallback fill, clamped to [0, 1].
   */
  function ParseText(original: string): (r: ParsedAddress)
    ensures r.original == original && r.normalized == NormalizeText(Str(original))
    ensures 0.5 <= r.confidence <= 1.0
    ensures |r.analyzedParts| == if r.normalized == "" then 0 else 1
    ensures forall kind :: ParsedField(r, kind) == Clean(FieldOf(Analyze(r.normalized), kind))
    ensures r.normalized != "" ==> var n, c := r.normalized, Classify(r.normalized, Keywords, 0, 1);
      && r.analyzedParts == [Analyzed(n, c.0, c.1)]
      && (c.1 != "" ==> ParsedField(r, c.0) == Clean(c.1))
      && r.confidence == Clamp(0.5 + c.2 + 0.1 * FallbackFills(Classified(n), n) as real)
  {
    var normalized := NormalizeText(Str(original));
    Finish(original, normalized, Analyze(normalized))
  }

  /**
   * `parseAddressSmart(addressText)`; `None` when `addressText.trim()` throws
   * because the argument is not a string. Blank text gives the empty record,
   * any other text is parsed once trimmed.
   */
  function Parse(v: JsValue): (r: Option<ParsedAddress>)
    ensures r.None? <==> v.NonString?
    ensures v.Str? && Trim(v.s) == "" ==> r == Some(Blank)
    ensures v.Str? && Trim(v.s) != "" ==> r == Some(ParseText(Trim(v.s)))
  {
    match v
    case NonString => None
    case Str(s) =>
      var original := Trim(s);
      if original == "" then Some(Blank) else Some(ParseText(original))
  }

  // ------------------------------------------------------------------ lemmas

  /** Normalized text has no comma, so comma splitting yields the whole text or nothing. */
  lemma CommaPartsOfNormalized(s: string)
    requires SpaceCanonical(s) && ',' !in s
    ensures CommaParts(s) == if s == "" then [] else [s]
  {
    if s != "" {
      assert !IsSpace(s[0]) && !IsSpace(s[|s| - 1]);
    }
  }

  /** The normalized text is classified as one fragment in last position, or not at all when empty. */
  lemma ClassifiedNormalized(n: string)
    requires SpaceCanonical(n) && ',' !in n
    ensures n == "" ==> Classified(n) == Start
    ensures n != "" ==> var c := Classify(n, Keywords, 0, 1);
      && Classified(n).analyzed == [Analyzed(n, c.0, c.1)]
      && FieldOf(Classified(n), c.0) == c.1
      && Classified(n).confidence == 0.5 + c.2
  {
    CommaPartsOfNormalized(n);
    if n != "" {
      ClassifyOne(Keywords, n);
    }
  }

  /** A single fragment is classified in last position and assigned on top of the initial locals. */
  lemma ClassifyOne(table: seq<(Kind, seq<Word>)>, n: string)
    ensures var c := Classify(n, table, 0, 1);
      && ClassifyParts(table, [n], 1) == Assign(Start, n, c.0, c.1, c.2)
      && ClassifyParts(table, [n], 1).analyzed == [Analyzed(n, c.0, c.1)]
      && FieldOf(ClassifyParts(table, [n], 1), c.0) == c.1
      && ClassifyParts(table, [n], 1).confidence == 0.5 + c.2
  {
    var c := Classify(n, table, 0, 1);
    assert ClassifyParts(table, [n], 1) == Assign(AssignAll([n], Classifications(table, [n]), 0), n, c.0, c.1, c.2);
    AssignSpec(Start, n, c.0, c.1, c.2);
  }

  /** A text that is exactly the `k`-th marker, with no earlier marker matching it, is cleaned away. */
  lemma CleanWholeMarker(w: string, k: nat)
    requires k < |MarkerWords| && Spells(MarkerWords[k], w)
    requires w != [] && IsWordChar(w[0]) && IsWordChar(w[|w| - 1])
    requires forall j :: 0 <= j < k ==> !WordAt(w, 0, MarkerWords[j])
    ensures Clean(w) == ""
  {
    ReplaceWholeWord(w, MarkerWords, "", k);
  }

  /** `clean` erases a province marker word, which pattern 2 copies into the province. */
  lemma CleanErasesProvinceMarker(w: string)
    requires IsProvinceMarker(w)
    ensures Clean(w) == ""
  {
    if w == "tinh" {
      CleanWholeMarker(w, 0);
    } else {
      LiteralDiffers(w, MarkerWords[0], 1, 'i');
      CleanWholeMarker(w, 1);
    }
  }

  /** `clean` erases a ward marker word, which pattern 1 copies into the district. */
  lemma CleanErasesWardMarker(w: string)
    requires IsWardMarker(w)
    ensures Clean(w) == ""
  {
    if w == "xa" {
      CleanWholeMarker(w, 4);
    } else {
      LiteralDiffers(w, MarkerWords[0], 0, 't');
      LiteralDiffers(w, MarkerWords[2], 0, 'h');
      LiteralDiffers(w, MarkerWords[3], 0, 'q');
      LiteralDiffers(w, MarkerWords[4], 0, 'x');
      CleanWholeMarker(w, 5);
    }
  }

  /**
   * Without a keyword the whole normalized text is one fragment in last
   * position, so it is taken as the province, and the fallback cannot
   * overwrite it.
   */
  lemma AnalyzeWithoutKeyword(n: string)
    requires SpaceCanonical(n) && ',' !in n && n != ""
    requires FindKeyword(n, Keywords, 0).None?
    ensures Analyze(n).province == n
    ensures Analyze(n).analyzed == [Analyzed(n, Province, n)]
    ensures Analyze(n).confidence >= 0.55
  {
    var c := Classify(n, Keywords, 0, 1);
    assert c.0 == Province && c.1 == n && FieldOf(Analyze(n), Province) == n;
  }

  /** A keyword in the text raises the starting confidence of 0.5 by 0.1 before any fallback. */
  lemma AnalyzeWithKeyword(n: string)
    requires SpaceCanonical(n) && ',' !in n && n != ""
    requires FindKeyword(n, Keywords, 0).Some?
    ensures Analyze(n).confidence >= 0.6
  {
  }

  /** Pattern 2 copies the province marker word into the province, and `clean` then empties it. */
  lemma FallbackPattern2EmptiesProvince(f: Fields, text: string, m: Slots)
    requires FirstMatch(text) == Some((1, m)) && f.province == ""
    ensures Clean(ApplySlots(f, m).province) == ""
  {
    FirstMatchSlots(text, 1, m);
    ProvinceFromMarkerSlot(f, m);
  }

  /** With the province still empty, a province marker in slot 5 becomes the province and `clean` empties it. */
  lemma ProvinceFromMarkerSlot(f: Fields, m: Slots)
    requires f.province == "" && m.m5.Some? && IsProvinceMarker(m.m5.value)
    ensures Clean(ApplySlots(f, m).province) == ""
  {
    assert ApplySlots(f, m).province == m.m5.value;
    CleanErasesProvinceMarker(m.m5.value);
  }

  /** Pattern 1 copies the ward marker word into the district, and `clean` then empties it. */
  lemma FallbackPattern1EmptiesDistrict(f: Fields, text: string, m: Slots)
    requires FirstMatch(text) == Some((0, m)) && f.district == "" && IsDistrictMarker(m.m3)
    ensures Clean(ApplySlots(f, m).district) == ""
  {
    FirstMatchSlots(text, 0, m);
    var f1 := if f.ward == "" && IsWardMarker(m.m1) then f.(ward := m.m2, confidence := f.confidence + 0.1) else f;
    assert f1.district == "";
    assert ApplySlots(f, m).district == m.m4;
    CleanErasesWardMarker(m.m4);
  }

  /** Pattern 3 fills neither the ward nor the district: its slots 1 and 3 hold the wrong markers. */
  lemma FallbackPattern3KeepsDistrictAndWard(f: Fields, text: string, m: Slots)
    requires FirstMatch(text) == Some((2, m))
    ensures ApplySlots(f, m).ward == f.ward && ApplySlots(f, m).district == f.district
  {
    FirstMatchSlots(text, 2, m);
  }
}
