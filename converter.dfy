/**
 * The `AddressConverter` class (app.js:2-504): the catalog fields it
 * updates, and its methods written as the loops the source runs, each proved
 * to compute its specification function.
 */
module Converter {
  import opened JsText
  import opened Normalizer
  import opened Fallback
  import opened Parser
  import opened Matcher
  import opened Batch

  /** The three catalog files `loadData(type)` can store. */
  datatype Table = ProvinceTable | DistrictTable | WardTable

  class AddressConverter {
    var provinces: seq<Unit>
    var districts: seq<Unit>
    var wards: seq<Unit>
    var dataLoaded: bool

    /** The catalog the matching functions read. */
    function Snapshot(): Catalog
      reads this
    {
      Catalog(provinces, districts, wards, dataLoaded)
    }

    /** The data fields of the constructor (app.js:5-8). */
    constructor()
      ensures provinces == [] && districts == [] && wards == [] && !dataLoaded
    {
      provinces := [];
      districts := [];
      wards := [];
      dataLoaded := false;
    }

    /** The `switch (type)` of `loadData` (app.js:102-112): store one table once its file has been read. */
    method Store(t: Table, data: seq<Unit>)
      modifies this
      ensures provinces == (if t == ProvinceTable then data else old(provinces))
      ensures districts == (if t == DistrictTable then data else old(districts))
      ensures wards == (if t == WardTable then data else old(wards))
      ensures dataLoaded == old(dataLoaded)
    {
      match t
      case ProvinceTable => provinces := data;
      case DistrictTable => districts := data;
      case WardTable => wards := data;
    }

    /** `this.dataLoaded = true` once all three tables are stored (app.js:71). */
    method MarkLoaded()
      modifies this
      ensures dataLoaded
      ensures provinces == old(provinces) && districts == old(districts) && wards == old(wards)
    {
      dataLoaded := true;
    }

    /** The abbreviation `forEach` of `normalizeText` (app.js:132-135) over `this.abbreviations`. */
    method ExpandAll(lowered: string, abbreviations: seq<(Word, string)>) returns (normalized: string)
      ensures normalized == ExpandAbbreviations(lowered, abbreviations, |abbreviations|)
    {
      normalized := lowered;
      var k := 0;
      while k < |abbreviations|
        invariant 0 <= k <= |abbreviations|
        invariant normalized == ExpandAbbreviations(lowered, abbreviations, k)
      {
        var abbr, full := abbreviations[k].0, abbreviations[k].1;
        normalized := ReplaceWords(normalized, [Compile(abbr)], full);
        k := k + 1;
      }
    }

    /** The alias `forEach` of `normalizeText` (app.js:147-152) over `this.provinceAliases`. */
    method AliasAll(filtered: string, aliases: seq<(Word, Word)>) returns (normalized: string)
      ensures normalized == ApplyAliases(filtered, aliases, |aliases|)
    {
      normalized := filtered;
      var k := 0;
      while k < |aliases|
        invariant 0 <= k <= |aliases|
        invariant normalized == ApplyAliases(filtered, aliases, k)
      {
        var (alias, full) := aliases[k];
        if Includes(normalized, alias) {
          normalized := ReplaceFirst(normalized, alias, full);
        }
        k := k + 1;
      }
    }

    /** `normalizeText(text)` (app.js:125-155). */
    method NormalizeText(v: JsValue) returns (r: string)
      ensures r == Normalizer.NormalizeText(v)
    {
      if !v.Str? || v.s == "" {
        return "";
      }
      var expanded := ExpandAll(Lowercase(v.s), Abbreviations);
      r := AliasAll(FilterAndCollapse(StripDiacritics(expanded)), ProvinceAliases);
    }

    /** The nested keyword loops with their two `break`s (app.js:192-202). */
    method MatchKeyword(part: string, keywords: seq<(Kind, seq<Word>)>) returns (found: Option<(nat, nat)>)
      ensures found == FindKeyword(part, keywords, 0)
    {
      var l := 0;
      while l < |keywords|
        invariant 0 <= l <= |keywords|
        invariant FindKeyword(part, keywords, 0) == FindKeyword(part, keywords, l)
      {
        var words := keywords[l].1;
        var j := 0;
        while j < |words|
          invariant 0 <= j <= |words|
          invariant KeywordInLevel(part, words, 0) == KeywordInLevel(part, words, j)
        {
          if Includes(part, words[j]) {
            return Some((l, j));
          }
          j := j + 1;
        }
        l := l + 1;
      }
      return None;
    }

    /** The kind, value and confidence increment of one fragment (app.js:186-231). */
    method ClassifyPart(part: string, keywords: seq<(Kind, seq<Word>)>, i: nat, n: nat) returns (kind: Kind, value: string, delta: real)
      requires i < n
      ensures (kind, value, delta) == Classify(part, keywords, i, n)
    {
      value := part;
      var found := MatchKeyword(part, keywords);
      if found.Some? {
        var (l, j) := found.value;
        kind := keywords[l].0;
        value := Trim(ReplaceWords(part, [Compile(keywords[l].1[j])], ""));
        delta := 0.1;
      } else if i == n - 1 {
        kind, delta := Province, 0.05;
      } else if i == n - 2 {
        kind, delta := District, 0.05;
      } else if i == n - 3 {
        kind, delta := Ward, 0.05;
      } else if StartsWithDigit(part) {
        kind, delta := Street, 0.0;
      } else {
        kind, delta := Hamlet, 0.0;
      }
    }

    /** The loop over the comma fragments of `parseAddressSmart` (app.js:186-248). */
    method ClassifyAll(commaParts: seq<string>, keywords: seq<(Kind, seq<Word>)>) returns (f: Fields)
      ensures f == ClassifyParts(keywords, commaParts, |commaParts|)
    {
      f := Start;
      var i := 0;
      while i < |commaParts|
        invariant 0 <= i <= |commaParts|
        invariant f == ClassifyParts(keywords, commaParts, i)
      {
        var part := commaParts[i];
        var kind, value, delta := ClassifyPart(part, keywords, i, |commaParts|);
        ClassifyPartsNext(keywords, commaParts, i);
        f := AssignPart(f, part, kind, value, delta);
        i := i + 1;
      }
    }

    /** The `switch (type)` of app.js:229-247 on the locals, the confidence increment and the `push`. */
    method AssignPart(f: Fields, part: string, kind: Kind, value: string, delta: real) returns (r: Fields)
      ensures r == Assign(f, part, kind, value, delta)
    {
      r := f.(confidence := f.confidence + delta, analyzed := f.analyzed + [Analyzed(part, kind, value)]);
      match kind {
        case Province => r := r.(province := value);
        case District => r := r.(district := value);
        case Ward => r := r.(ward := value);
        case Hamlet => r := r.(hamlet := value);
        case Street => r := r.(street := value);
      }
    }

    /** The regex fallback of `parseAddressSmart` (app.js:251-283): the first pattern that matches fills the empty fields. */
    method Fallback(f: Fields, normalized: string) returns (r: Fields)
      ensures r == WithFallback(f, normalized)
    {
      r := f;
      if f.province == "" || f.district == "" || f.ward == "" {
        var k := 0;
        while k < |Patterns|
          invariant 0 <= k <= |Patterns|
          invariant FirstMatch(normalized) == FirstMatchFrom(normalized, k)
          invariant r == f
        {
          var caps := MatchPattern(Patterns[k], normalized);
          if caps.Some? {
            var m := SlotsOf(caps.value);
            assert FirstMatchFrom(normalized, k) == Some((k, m));
            r := FillSlots(f, m);
            break;
          }
          k := k + 1;
        }
      }
    }

    /** The three `if`s of app.js:269-280: each empty field the slots can fill is filled, for 0.1 each. */
    method FillSlots(f: Fields, m: Slots) returns (r: Fields)
      ensures r == ApplySlots(f, m)
    {
      r := f;
      if r.ward == "" && IsWardMarker(m.m1) {
        r := r.(ward := m.m2, confidence := r.confidence + 0.1);
      }
      if r.district == "" && IsDistrictMarker(m.m3) {
        r := r.(district := Or(Some(m.m4), m.m2), confidence := r.confidence + 0.1);
      }
      if r.province == "" {
        r := r.(province := Or(m.m5, Or(Some(m.m4), m.m3)), confidence := r.confidence + 0.1);
      }
    }

    /** `parseAddressSmart(addressText)`; `None` where `addressText.trim()` throws. */
    method ParseAddressSmart(v: JsValue) returns (r: Option<ParsedAddress>)
      ensures r == Parse(v)
    {
      if v.NonString? {
        return None;
      }
      var original := Trim(v.s);
      if original == "" {
        return Some(Blank);
      }
      var normalized := NormalizeText(Str(original));
      var classified := ClassifyAll(CommaParts(normalized), Keywords);
      var f := Fallback(classified, normalized);
      r := Some(ParsedAddress(original, Clean(f.province), Clean(f.district), Clean(f.ward), Clean(f.hamlet), Clean(f.street),
                              normalized, Clamp(f.confidence), f.analyzed));
    }

    /**
     * The two loops of `findInDatabase` (app.js:325-344 and 360-390): score
     * every unit by `score` and keep the first one whose score beats the best
     * so far, starting from nothing found and 0.
     */
    method ScanBest(units: seq<Unit>, score: Unit -> real) returns (found: Option<Unit>, bestScore: real, ghost best: Option<nat>)
      ensures (best, bestScore) == RunningMax(ScoresOf(units, score), |units|)
      ensures found == if best.Some? then Some(units[best.value]) else None
    {
      found, bestScore, best := None, 0.0, None;
      ghost var scores := ScoresOf(units, score);
      var i := 0;
      while i < |units|
        invariant 0 <= i <= |units|
        invariant (best, bestScore) == RunningMax(scores, i)
        invariant found == if best.Some? then Some(units[best.value]) else None
      {
        var s := score(units[i]);
        ScoresOfAt(units, score, i);
        if s > bestScore {
          bestScore := s;
          found := Some(units[i]);
          best := Some(i);
        }
        i := i + 1;
      }
    }

    /** Steps 2 to 4 of `findInDatabase` once the province is found (app.js:355-425). */
    method ResolveWard(p: ParsedAddress, province: Unit, provinceScore: real) returns (r: Resolution)
      requires provinceScore == ProvinceScore(province, p) > 0.0
      ensures r == Resolve(Snapshot(), p, province)
    {
      var provinceWards := WardsOf(wards, province.code);
      ghost var best: Option<nat>;
      var foundWard, wardScore;
      foundWard, wardScore, best := ScanBest(provinceWards, WardRule(p, districts));
      ResolveByScan(Snapshot(), p, province, best, wardScore);
      var foundDistrict: Option<Unit> := None;
      if foundWard.Some? {
        foundDistrict := FindDistrict(districts, foundWard.value.parentCode);
      }
      var finalConfidence := provinceScore * 0.4 + wardScore * 0.6;
      if foundWard.Some? {
        r := Resolution(Success, Converted, Max(finalConfidence, 0.8), Some(province), foundDistrict, foundWard, Some(p));
      } else {
        r := Resolution(Warning, WardNotFound, provinceScore * 0.7, Some(province), foundDistrict, foundWard, Some(p));
      }
    }

    /** `findInDatabase(parsedAddress)` (app.js:312-426). */
    method FindInDatabase(p: ParsedAddress) returns (r: Resolution)
      ensures r == Find(Snapshot(), p)
    {
      if !dataLoaded {
        return Resolution(Error, NotReady, 0.0, None, None, None, None);
      }
      ghost var best: Option<nat>;
      var foundProvince, provinceScore;
      foundProvince, provinceScore, best := ScanBest(provinces, ProvinceRule(p));
      assert BestProvince(provinces, p) == best;
      if foundProvince.None? {
        return Resolution(Error, ProvinceNotFound, 0.0, None, None, None, None);
      }
      ProvinceScoresAt(provinces, p, best.value);
      r := ResolveWard(p, foundProvince.value, provinceScore);
    }

    /** One pass of the `processBatch` loop (app.js:443-492): parse, resolve and record line `i`. */
    method ProcessLine(address: JsValue, i: nat, failure: string) returns (e: Entry)
      ensures e == Batch.ProcessLine(Snapshot(), address, i, failure)
    {
      var parsed := ParseAddressSmart(address);
      if parsed.None? {
        e := Entry(i + 1, address, None, None, Display(Str(""), Str(""), Str(""), Error, FailurePrefix + failure, 0.0));
      } else {
        var result := FindInDatabase(parsed.value);
        e := Entry(i + 1, address, parsed, Some(result),
                   Display(NameOf(result.province), NameOf(result.district), NameOf(result.ward),
                           result.status, result.message, result.confidence));
      }
    }

    /** `processBatch(addresses)` without the progress display; `None` where it throws. */
    method ProcessBatch(addresses: seq<JsValue>, failure: string) returns (r: Option<seq<Entry>>)
      ensures r == Process(Snapshot(), addresses, failure)
    {
      if !dataLoaded {
        return None;
      }
      var results: seq<Entry> := [];
      var i := 0;
      while i < |addresses|
        invariant 0 <= i <= |addresses|
        invariant results == Lines(addresses, i, LineRule(Snapshot(), failure))
      {
        var entry := ProcessLine(addresses[i], i, failure);
        results := results + [entry];
        i := i + 1;
      }
      return Some(results);
    }
  }
}
