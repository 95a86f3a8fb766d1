/**
 * `findInDatabase` (app.js:312-426) as a specification: score every
 * province, keep the first best one, score the wards whose parent is that
 * province, keep the first best one, look up the district, then decide
 * status and confidence.
 */
module Matcher {
  import opened JsText
  import opened Normalizer
  import opened Parser

  /**
   * A catalog record: `code`, `name` and, for districts and wards,
   * `parent_code`. A name that is not a string normalizes to the empty text.
   */
  datatype Unit = Unit(code: string, name: JsValue, parentCode: Option<string>)

  /** The catalog fields of the converter: `provinces`, `districts`, `wards`, `dataLoaded`. */
  datatype Catalog = Catalog(provinces: seq<Unit>, districts: seq<Unit>, wards: seq<Unit>, loaded: bool)

  datatype Status = Success | Warning | Error

  const NotReady := "Dữ liệu chưa sẵn sàng"
  const ProvinceNotFound := "Không tìm thấy tỉnh/thành phố"
  const Converted := "Chuyển đổi thành công"
  const WardNotFound := "Tìm thấy tỉnh nhưng không xác định được xã"

  /** The object `findInDatabase` returns; the error results carry no units and no parsed address. */
  datatype Resolution = Resolution(
    status: Status,
    message: string,
    confidence: real,
    province: Option<Unit>,
    district: Option<Unit>,
    ward: Option<Unit>,
    parsed: Option<ParsedAddress>)

  // ------------------------------------------------------------------ scores

  /** The score of one province (app.js:330-338). */
  function ProvinceScore(u: Unit, p: ParsedAddress): (score: real)
    ensures score == 0.0 || score == 0.6 || score == 0.8 || score == 1.0
    ensures p.province == "" ==> score >= 0.8
    ensures u.name.NonString? ==> score >= 0.8
  {
    var name := NormalizeText(u.name);
    IncludesEmpty(name);
    IncludesEmpty(p.province);
    if name == p.province then 1.0
    else if Includes(name, p.province) || Includes(p.province, name) then 0.8
    else if Includes(p.normalized, name) then 0.6
    else 0.0
  }

  /** The first district whose `code` equals `code` (`this.districts.find(...)`). */
  function FindDistrict(ds: seq<Unit>, code: Option<string>): (r: Option<Unit>)
    ensures r.Some? ==> r.value in ds && code == Some(r.value.code)
    ensures r.None? ==> forall i :: 0 <= i < |ds| ==> code != Some(ds[i].code)
    ensures r.Some? ==> exists i :: 0 <= i < |ds| && ds[i] == r.value && forall j :: 0 <= j < i ==> code != Some(ds[j].code)
  {
    if ds == [] then None
    else if code == Some(ds[0].code) then Some(ds[0])
    else
      var r := FindDistrict(ds[1..], code);
      if r.Some? then
        var i :| 0 <= i < |ds[1..]| && ds[1..][i] == r.value && forall j :: 0 <= j < i ==> code != Some(ds[1..][j].code);
        assert ds[i + 1] == r.value;
        r
      else r
  }

  /** The +0.2 bonus when the ward's district matches the parsed district (app.js:375-385). */
  function DistrictBonus(w: Unit, p: ParsedAddress, ds: seq<Unit>): (bonus: real)
    ensures bonus == 0.0 || bonus == 0.2
    ensures p.district == "" ==> bonus == 0.0
  {
    if p.district == "" then 0.0
    else match FindDistrict(ds, w.parentCode)
      case None => 0.0
      case Some(d) =>
        var name := NormalizeText(d.name);
        if Includes(name, p.district) || Includes(p.district, name) then 0.2 else 0.0
  }

  /** The score of one ward (app.js:364-385). */
  function WardScore(w: Unit, p: ParsedAddress, ds: seq<Unit>): (score: real)
    ensures 0.0 <= score <= 1.2
    ensures score - DistrictBonus(w, p, ds) in {0.0, 0.7, 0.8, 1.0}
  {
    var name := NormalizeText(w.name);
    var base :=
      if p.ward != "" && name == p.ward then 1.0
      else if p.ward != "" && (Includes(name, p.ward) || Includes(p.ward, name)) then 0.8
      else if Includes(p.normalized, name) then 0.7
      else 0.0;
    base + DistrictBonus(w, p, ds)
  }

  // -------------------------------------------------------------- selection

  /**
   * The running maximum over the first `k` scores with strict `>`, starting
   * from "nothing found" and 0: the index kept and its score.
   */
  function RunningMax(scores: seq<real>, k: nat): (r: (Option<nat>, real))
    requires k <= |scores|
    ensures r.1 >= 0.0
    ensures forall i :: 0 <= i < k ==> scores[i] <= r.1
    ensures r.0.None? ==> r.1 == 0.0
    ensures r.0.Some? ==> r.0.value < k && scores[r.0.value] == r.1 > 0.0
    ensures r.0.Some? ==> forall j :: 0 <= j < r.0.value ==> scores[j] < r.1
  {
    if k == 0 then (None, 0.0)
    else
      var prev := RunningMax(scores, k - 1);
      if scores[k - 1] > prev.1 then (Some(k - 1), scores[k - 1]) else prev
  }

  /** The scores a rule gives the units of a table, in table order. */
  function ScoresOf(us: seq<Unit>, score: Unit -> real): (r: seq<real>)
    ensures |r| == |us|
  {
    if us == [] then [] else [score(us[0])] + ScoresOf(us[1..], score)
  }

  /** The province rule of app.js:326-338 for one parsed address. */
  function ProvinceRule(p: ParsedAddress): Unit -> real {
    u => ProvinceScore(u, p)
  }

  /** The ward rule of app.js:362-385 for one parsed address and district table. */
  function WardRule(p: ParsedAddress, ds: seq<Unit>): Unit -> real {
    w => WardScore(w, p, ds)
  }

  function ProvinceScores(ps: seq<Unit>, p: ParsedAddress): (r: seq<real>)
    ensures |r| == |ps|
  {
    ScoresOf(ps, ProvinceRule(p))
  }

  function WardScores(ws: seq<Unit>, p: ParsedAddress, ds: seq<Unit>): (r: seq<real>)
    ensures |r| == |ws|
  {
    ScoresOf(ws, WardRule(p, ds))
  }

  /** `this.wards.filter(w => w.parent_code === code)`, in catalog order. */
  function WardsOf(ws: seq<Unit>, code: string): (r: seq<Unit>)
    ensures forall i :: 0 <= i < |r| ==> r[i] in ws && r[i].parentCode == Some(code)
    ensures forall w :: w in ws && w.parentCode == Some(code) ==> w in r
    ensures |r| <= |ws|
  {
    if ws == [] then []
    else if ws[0].parentCode == Some(code) then [ws[0]] + WardsOf(ws[1..], code)
    else WardsOf(ws[1..], code)
  }

  /**
   * The filter keeps catalog order: a ward appended to the catalog comes last
   * among the wards of its province, after all of the earlier ones.
   */
  lemma {:induction false} WardsOfAppend(ws: seq<Unit>, w: Unit, code: string)
    ensures WardsOf(ws + [w], code) == WardsOf(ws, code) + (if w.parentCode == Some(code) then [w] else [])
  {
    if ws == [] {
      assert ws + [w] == [w];
      assert [w][1..] == [];
    } else {
      assert (ws + [w])[0] == ws[0];
      assert (ws + [w])[1..] == ws[1..] + [w];
      WardsOfAppend(ws[1..], w, code);
    }
  }

  /** Entry `i` of the scores is the rule applied to unit `i`. */
  lemma {:induction false} ScoresOfAt(us: seq<Unit>, score: Unit -> real, i: nat)
    requires i < |us|
    ensures ScoresOf(us, score)[i] == score(us[i])
  {
    if i > 0 {
      ScoresOfAt(us[1..], score, i - 1);
    }
  }

  /** Entry `i` of the province scores is the score of province `i`. */
  lemma ProvinceScoresAt(ps: seq<Unit>, p: ParsedAddress, i: nat)
    requires i < |ps|
    ensures ProvinceScores(ps, p)[i] == ProvinceScore(ps[i], p)
  {
    ScoresOfAt(ps, ProvinceRule(p), i);
  }

  lemma ProvinceScoresAll(ps: seq<Unit>, p: ParsedAddress)
    ensures forall i :: 0 <= i < |ps| ==> ProvinceScores(ps, p)[i] == ProvinceScore(ps[i], p)
  {
    forall i | 0 <= i < |ps| {
      ProvinceScoresAt(ps, p, i);
    }
  }

  /** Entry `i` of the ward scores is the score of ward `i`. */
  lemma WardScoresAt(ws: seq<Unit>, p: ParsedAddress, ds: seq<Unit>, i: nat)
    requires i < |ws|
    ensures WardScores(ws, p, ds)[i] == WardScore(ws[i], p, ds)
  {
    ScoresOfAt(ws, WardRule(p, ds), i);
  }

  lemma WardScoresAll(ws: seq<Unit>, p: ParsedAddress, ds: seq<Unit>)
    ensures forall i :: 0 <= i < |ws| ==> WardScores(ws, p, ds)[i] == WardScore(ws[i], p, ds)
  {
    forall i | 0 <= i < |ws| {
      WardScoresAt(ws, p, ds, i);
    }
  }

  function Max(a: real, b: real): real {
    if a >= b then a else b
  }

  /**
   * The province loop (app.js:325-344): the index of the first province with
   * the best score, or `None` when no province scores above 0.
   */
  function BestProvince(ps: seq<Unit>, p: ParsedAddress): (r: Option<nat>)
    ensures r.None? <==> forall i :: 0 <= i < |ps| ==> ProvinceScore(ps[i], p) == 0.0
    ensures r.Some? ==> r.value < |ps| && ProvinceScore(ps[r.value], p) > 0.0
    ensures r.Some? ==> forall j :: 0 <= j < |ps| ==> ProvinceScore(ps[j], p) <= ProvinceScore(ps[r.value], p)
    ensures r.Some? ==> forall j :: 0 <= j < r.value ==> ProvinceScore(ps[j], p) < ProvinceScore(ps[r.value], p)
  {
    var scores := ProvinceScores(ps, p);
    ProvinceScoresAll(ps, p);
    RunningMax(scores, |scores|).0
  }

  /**
   * The ward loop (app.js:360-390) over the wards of one province: the index
   * of the first ward with the best score, or `None` when none scores above 0.
   */
  function BestWard(ws: seq<Unit>, p: ParsedAddress, ds: seq<Unit>): (r: Option<nat>)
    ensures r.None? <==> forall i :: 0 <= i < |ws| ==> WardScore(ws[i], p, ds) == 0.0
    ensures r.Some? ==> r.value < |ws| && WardScore(ws[r.value], p, ds) > 0.0
    ensures r.Some? ==> forall j :: 0 <= j < |ws| ==> WardScore(ws[j], p, ds) <= WardScore(ws[r.value], p, ds)
    ensures r.Some? ==> forall j :: 0 <= j < r.value ==> WardScore(ws[j], p, ds) < WardScore(ws[r.value], p, ds)
  {
    var scores := WardScores(ws, p, ds);
    WardScoresAll(ws, p, ds);
    RunningMax(scores, |scores|).0
  }

  /** Does some province score above 0? */
  predicate SomeProvinceScores(c: Catalog, p: ParsedAddress) {
    exists i :: 0 <= i < |c.provinces| && ProvinceScore(c.provinces[i], p) > 0.0
  }

  /**
   * Steps 2 to 4 of `findInDatabase` once `province` is found (app.js:355-425):
   * success exactly when a ward of that province is found, with a confidence
   * of at least 0.8 that may exceed 1, otherwise a warning with 0.7 times the
   * province score. The ward is the first of the province's wards with the
   * best score, and the district is the one the ward names as its parent.
   */
  function Resolve(c: Catalog, p: ParsedAddress, province: Unit): (r: Resolution)
    requires ProvinceScore(province, p) > 0.0
    ensures r.status != Error && r.province == Some(province) && r.parsed == Some(p)
    ensures r.status == Success <==> r.ward.Some?
    ensures r.status == Success ==> 0.8 <= r.confidence <= 1.12
    ensures r.status == Success ==>
      r.confidence == Max(ProvinceScore(province, p) * 0.4 + WardScore(r.ward.value, p, c.districts) * 0.6, 0.8)
    ensures r.status == Warning ==> r.confidence == 0.7 * ProvinceScore(province, p) && 0.42 <= r.confidence <= 0.7
    ensures r.status == Warning <==> forall w :: w in WardsOf(c.wards, province.code) ==> WardScore(w, p, c.districts) == 0.0
    ensures r.ward.Some? ==> forall w :: w in WardsOf(c.wards, province.code) ==>
      WardScore(w, p, c.districts) <= WardScore(r.ward.value, p, c.districts)
    ensures r.ward.Some? ==> r.ward.value in c.wards && r.ward.value.parentCode == Some(province.code)
    ensures r.district.Some? ==> r.ward.Some? && r.district.value in c.districts && Some(r.district.value.code) == r.ward.value.parentCode
    ensures r.district.Some? ==> r.district.value.code == province.code
    ensures r.district == if r.ward.Some? then FindDistrict(c.districts, r.ward.value.parentCode) else None
    ensures r.ward.Some? <==> BestWard(WardsOf(c.wards, province.code), p, c.districts).Some?
    ensures r.ward.Some? ==> r.ward.value == WardsOf(c.wards, province.code)[BestWard(WardsOf(c.wards, province.code), p, c.districts).value]
  {
    var provinceScore := ProvinceScore(province, p);
    var candidates := WardsOf(c.wards, province.code);
    BestWardMembers(candidates, p, c.districts);
    match BestWard(candidates, p, c.districts)
    case Some(wi) =>
      var ward := candidates[wi];
      var wardScore := WardScore(ward, p, c.districts);
      var district := FindDistrict(c.districts, ward.parentCode);
      SuccessConfidence(provinceScore, wardScore);
      Resolution(Success, Converted, Max(provinceScore * 0.4 + wardScore * 0.6, 0.8),
                 Some(province), district, Some(ward), Some(p))
    case None =>
      Resolution(Warning, WardNotFound, provinceScore * 0.7, Some(province), None, None, Some(p))
  }

  /** `BestWard` stated over the wards themselves rather than their indices. */
  lemma BestWardMembers(ws: seq<Unit>, p: ParsedAddress, ds: seq<Unit>)
    ensures BestWard(ws, p, ds).None? <==> forall w :: w in ws ==> WardScore(w, p, ds) == 0.0
    ensures BestWard(ws, p, ds).Some? ==> forall w :: w in ws ==> WardScore(w, p, ds) <= WardScore(ws[BestWard(ws, p, ds).value], p, ds)
  {
  }

  /** The success confidence blends a province score and a ward score and lies between 0.8 and 1.12. */
  lemma SuccessConfidence(provinceScore: real, wardScore: real)
    requires 0.0 < provinceScore <= 1.0 && 0.0 <= wardScore <= 1.2
    ensures 0.8 <= Max(provinceScore * 0.4 + wardScore * 0.6, 0.8) <= 1.12
  {
  }

  /** `Resolve` in terms of the running maximum of the ward loop, for an implementation that scans the wards itself. */
  lemma ResolveByScan(c: Catalog, p: ParsedAddress, province: Unit, best: Option<nat>, wardScore: real)
    requires ProvinceScore(province, p) > 0.0
    requires (best, wardScore) == RunningMax(WardScores(WardsOf(c.wards, province.code), p, c.districts), |WardsOf(c.wards, province.code)|)
    ensures best.None? ==>
      Resolve(c, p, province) == Resolution(Warning, WardNotFound, ProvinceScore(province, p) * 0.7, Some(province), None, None, Some(p))
    ensures best.Some? ==> best.value < |WardsOf(c.wards, province.code)|
    ensures best.Some? ==>
      var ward := WardsOf(c.wards, province.code)[best.value];
      Resolve(c, p, province) == Resolution(Success, Converted, Max(ProvinceScore(province, p) * 0.4 + wardScore * 0.6, 0.8),
                    Some(province), FindDistrict(c.districts, ward.parentCode), Some(ward), Some(p))
  {
    var candidates := WardsOf(c.wards, province.code);
    assert BestWard(candidates, p, c.districts) == best;
    if best.Some? {
      WardScoresAt(candidates, p, c.districts, best.value);
    }
  }

  /**
   * `findInDatabase(parsedAddress)`: an error with confidence 0 exactly when
   * the data is not loaded or no province scores above 0; otherwise the
   * resolution of the first best-scoring province.
   */
  function Find(c: Catalog, p: ParsedAddress): (r: Resolution)
    ensures !c.loaded ==> r.status == Error && r.message == NotReady
    ensures r.status == Error <==> !c.loaded || !SomeProvinceScores(c, p)
    ensures r.status == Error ==> r.confidence == 0.0 && r.province.None? && r.ward.None? && r.parsed.None?
    ensures c.loaded && !SomeProvinceScores(c, p) ==> r.message == ProvinceNotFound
    ensures r.status != Error ==> r == Resolve(c, p, c.provinces[BestProvince(c.provinces, p).value])
  {
    if !c.loaded then Resolution(Error, NotReady, 0.0, None, None, None, None)
    else match BestProvince(c.provinces, p)
      case None => Resolution(Error, ProvinceNotFound, 0.0, None, None, None, None)
      case Some(pi) => Resolve(c, p, c.provinces[pi])
  }

  // ------------------------------------------------------------------ lemmas

  /** With an empty parsed province every province scores at least 0.8, so a loaded, non-empty catalog never fails. */
  lemma FindEmptyProvinceNeverFails(c: Catalog, p: ParsedAddress)
    requires c.loaded && |c.provinces| > 0 && p.province == ""
    ensures Find(c, p).status != Error
    ensures Find(c, p).confidence >= 0.56
  {
    assert ProvinceScore(c.provinces[0], p) > 0.0;
  }
}
