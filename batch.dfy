/**
 * The non-interface part of `processBatch` (app.js:429-504) and the status
 * tally of `displayResults` (app.js:516-520).
 */
module Batch {
  import opened JsText
  import opened Parser
  import opened Matcher

  /** The `display` object of one entry; unit names are whatever the catalog holds. */
  datatype Display = Display(
    province: JsValue,
    district: JsValue,
    ward: JsValue,
    status: Status,
    message: string,
    confidence: real)

  /** One element of the `results` array. */
  datatype Entry = Entry(
    index: nat,
    original: JsValue,
    parsed: Option<ParsedAddress>,
    result: Option<Resolution>,
    display: Display)

  const FailurePrefix := "Lỗi xử lý: "

  /** `u ? u.name : ''`. */
  function NameOf(u: Option<Unit>): JsValue {
    if u.Some? then u.value.name else Str("")
  }

  /**
   * The body of the loop for line `i` (app.js:443-492). Parsing throws when
   * the line is not a string; the catch records an error entry whose message
   * ends with the engine's `error.message`, here `failure`.
   */
  function ProcessLine(c: Catalog, a: JsValue, i: nat, failure: string): (e: Entry)
    ensures e.index == i + 1 && e.original == a
    ensures e.parsed.None? <==> a.NonString?
    ensures e.parsed.None? ==> e.result.None? && e.display.status == Error && e.display.confidence == 0.0
    ensures e.parsed.Some? ==> e.parsed == Parse(a) && e.result == Some(Find(c, e.parsed.value))
    ensures e.result.Some? ==> e.display.status == e.result.value.status && e.display.confidence == e.result.value.confidence
  {
    match Parse(a)
    case None =>
      Entry(i + 1, a, None, None, Display(Str(""), Str(""), Str(""), Error, FailurePrefix + failure, 0.0))
    case Some(p) =>
      var r := Find(c, p);
      Entry(i + 1, a, Some(p), Some(r),
            Display(NameOf(r.province), NameOf(r.district), NameOf(r.ward), r.status, r.message, r.confidence))
  }

  /** `results` after the first `k` passes of a loop whose pass `i` pushes `line(addrs[i], i)`. */
  function Lines(addrs: seq<JsValue>, k: nat, line: (JsValue, nat) -> Entry): (rs: seq<Entry>)
    requires k <= |addrs|
    ensures |rs| == k
    ensures forall i :: 0 <= i < k ==> rs[i] == line(addrs[i], i)
  {
    if k == 0 then []
    else
      var prev := Lines(addrs, k - 1, line);
      var rs := prev + [line(addrs[k - 1], k - 1)];
      assert forall i :: 0 <= i < k - 1 ==> rs[i] == prev[i];
      rs
  }

  /** The pass of `processBatch` for one line, against a catalog. */
  function LineRule(c: Catalog, failure: string): (JsValue, nat) -> Entry {
    (a: JsValue, i: nat) => ProcessLine(c, a, i, failure)
  }

  /**
   * `processBatch(addresses)`: `None` when it throws because the data is not
   * loaded; otherwise one entry per line, entry `i` computed from line `i`
   * alone, a failing line not stopping the others.
   */
  function Process(c: Catalog, addrs: seq<JsValue>, failure: string): (r: Option<seq<Entry>>)
    ensures r.None? <==> !c.loaded
    ensures r.Some? ==> |r.value| == |addrs|
    ensures r.Some? ==> forall i :: 0 <= i < |addrs| ==> r.value[i].index == i + 1 && r.value[i].original == addrs[i]
    ensures r.Some? ==> forall i :: 0 <= i < |addrs| ==> r.value[i] == ProcessLine(c, addrs[i], i, failure)
  {
    if !c.loaded then None else Some(Lines(addrs, |addrs|, LineRule(c, failure)))
  }

  /** A line that is not a string becomes an error entry with confidence 0 and the loop goes on. */
  lemma ProcessFailingLine(c: Catalog, addrs: seq<JsValue>, failure: string, i: nat)
    requires c.loaded && i < |addrs| && addrs[i].NonString?
    ensures var rs := Process(c, addrs, failure).value;
      |rs| == |addrs| && rs[i].display.status == Error && rs[i].display.confidence == 0.0 && rs[i].parsed.None?
  {
  }

  /** Entry `i` depends only on line `i`: changing other lines leaves it as it is. */
  lemma ProcessIsLineByLine(c: Catalog, a: seq<JsValue>, b: seq<JsValue>, failure: string, i: nat)
    requires c.loaded && i < |a| && i < |b| && a[i] == b[i]
    ensures Process(c, a, failure).value[i] == Process(c, b, failure).value[i]
  {
  }

  // ------------------------------------------------------------------- tally

  /** The counters of `displayResults` after the first `k` entries: success, warning, everything else. */
  function Tally(rs: seq<Entry>, k: nat): (t: (nat, nat, nat))
    requires k <= |rs|
    ensures t.0 + t.1 + t.2 == k
    ensures t.0 == |set i | 0 <= i < k && rs[i].display.status == Success|
    ensures t.1 == |set i | 0 <= i < k && rs[i].display.status == Warning|
    ensures t.2 == |set i | 0 <= i < k && rs[i].display.status == Error|
  {
    if k == 0 then (0, 0, 0)
    else
      var t := Tally(rs, k - 1);
      var s := rs[k - 1].display.status;
      StatusSetGrows(rs, k, Success);
      StatusSetGrows(rs, k, Warning);
      StatusSetGrows(rs, k, Error);
      if s == Success then (t.0 + 1, t.1, t.2)
      else if s == Warning then (t.0, t.1 + 1, t.2)
      else (t.0, t.1, t.2 + 1)
  }

  /** Adding entry `k - 1` adds it to the set of entries with its status and to no other. */
  lemma StatusSetGrows(rs: seq<Entry>, k: nat, st: Status)
    requires 0 < k <= |rs|
    ensures var before := set i | 0 <= i < k - 1 && rs[i].display.status == st;
      var after := set i | 0 <= i < k && rs[i].display.status == st;
      |after| == |before| + (if rs[k - 1].display.status == st then 1 else 0)
  {
    var before := set i | 0 <= i < k - 1 && rs[i].display.status == st;
    var after := set i | 0 <= i < k && rs[i].display.status == st;
    if rs[k - 1].display.status == st {
      assert after == before + {k - 1};
    } else {
      assert after == before;
    }
  }
}
