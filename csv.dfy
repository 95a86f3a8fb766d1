/**
 * The quoting of the original address in the CSV export (app.js:645): every
 * double quote is doubled and the field is wrapped in double quotes, as in
 * item 7 of section 2 of RFC 4180.
 */
module Csv {
  import opened JsText

  /** `s.replace(/"/g, '""')`: one extra character per quote. */
  function EscapeQuotes(s: string): (r: string)
    ensures |r| == |s| + multiset(s)['"']
  {
    if s == [] then []
    else
      assert s == [s[0]] + s[1..];
      (if s[0] == '"' then "\"\"" else [s[0]]) + EscapeQuotes(s[1..])
  }

  /** `"${original.replace(/"/g, '""')}"`. */
  function QuoteField(s: string): (r: string)
    ensures |r| >= 2 && r[0] == '"' && r[|r| - 1] == '"'
  {
    "\"" + EscapeQuotes(s) + "\""
  }

  /** Reads the inside of a quoted field back: `""` is one quote, a lone quote is malformed. */
  function UnescapeQuotes(t: string): Option<string> {
    if t == [] then Some([])
    else if t[0] == '"' then
      if |t| >= 2 && t[1] == '"' then
        match UnescapeQuotes(t[2..])
        case None => None
        case Some(rest) => Some("\"" + rest)
      else None
    else
      match UnescapeQuotes(t[1..])
      case None => None
      case Some(rest) => Some([t[0]] + rest)
  }

  /** Reads a quoted CSV field as RFC 4180 defines it. */
  function UnquoteField(q: string): Option<string> {
    if |q| >= 2 && q[0] == '"' && q[|q| - 1] == '"' then UnescapeQuotes(q[1..|q| - 1]) else None
  }

  lemma {:induction false} UnescapeEscape(s: string)
    ensures UnescapeQuotes(EscapeQuotes(s)) == Some(s)
  {
    if s != [] {
      UnescapeEscape(s[1..]);
      var e := EscapeQuotes(s[1..]);
      if s[0] == '"' {
        assert EscapeQuotes(s) == "\"\"" + e;
        assert ("\"\"" + e)[2..] == e;
      } else {
        assert EscapeQuotes(s) == [s[0]] + e;
        assert ([s[0]] + e)[1..] == e;
      }
      assert s == [s[0]] + s[1..];
    }
  }

  /** Quoting then reading the field gives the original text back, whatever quotes and commas it holds. */
  lemma QuoteRoundTrip(s: string)
    ensures UnquoteField(QuoteField(s)) == Some(s)
  {
    var q := QuoteField(s);
    assert q[1..|q| - 1] == EscapeQuotes(s);
    UnescapeEscape(s);
  }
}
