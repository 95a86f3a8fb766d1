/**
 * What `normalizeText` (app.js:125-155) does and does not promise about a
 * second application: the character filter of app.js:141-145 is idempotent,
 * the whole pipeline is not.
 */
module NormalizerFacts {
  import opened JsText
  import opened Letters
  import opened Normalizer

  /** Table entries `m` to `k - 1` that match nowhere in the text leave it as it is. */
  lemma {:induction false} ExpandUnchanged(s: string, table: seq<(Word, string)>, m: nat, k: nat)
    requires m <= k <= |table|
    requires forall i, j :: m <= i < k && 0 <= j <= |ExpandAbbreviations(s, table, m)| ==>
      !WordAt(ExpandAbbreviations(s, table, m), j, Compile(table[i].0))
    ensures ExpandAbbreviations(s, table, k) == ExpandAbbreviations(s, table, m)
  {
    if k > m {
      ExpandUnchanged(s, table, m, k - 1);
    }
  }

  /** Aliases the text does not include leave it as it is. */
  lemma {:induction false} AliasesUnchanged(s: string, table: seq<(Word, Word)>, k: nat)
    requires k <= |table|
    requires forall i :: 0 <= i < k ==> !Includes(s, table[i].0)
    ensures ApplyAliases(s, table, k) == s
  {
    if k > 0 {
      AliasesUnchanged(s, table, k - 1);
    }
  }

  /** In a text of word characters only, a non-empty pattern can only match the whole text. */
  lemma OnlyWholeWord(s: string, j: nat, p: Pattern)
    requires forall i :: 0 <= i < |s| ==> IsWordChar(s[i])
    requires p != [] && WordAt(s, j, p)
    ensures j == 0 && |p| == |s|
  {
  }

  /** "tp_" has no inner `\b`, and no three-character key spells it: no abbreviation applies. */
  lemma ExpandTpUnderscore()
    ensures ExpandAbbreviations("tp_", Abbreviations, |Abbreviations|) == "tp_"
  {
    var s := "tp_";
    forall i, j | 0 <= i < |Abbreviations| && 0 <= j <= |s|
      ensures !WordAt(s, j, Compile(Abbreviations[i].0))
    {
      var p := Compile(Abbreviations[i].0);
      if WordAt(s, j, p) {
        OnlyWholeWord(s, j, p);
      }
    }
    ExpandUnchanged(s, Abbreviations, 0, |Abbreviations|);
  }

  lemma StripTpUnderscore()
    ensures StripDiacritics("tp_") == "tp_"
  {
    assert StripChar('_') == "_";
    assert StripDiacritics("_") == "_";
  }

  lemma KeepTpUnderscore()
    ensures KeepClass(ReplaceDStroke("tp_")) == "tp "
  {
    assert ReplaceDStroke("tp_") == "tp_";
  }

  lemma CollapseTp()
    ensures Collapse("tp ") == "tp "
  {
    assert SpaceRun(" ") == 1;
  }

  lemma TrimTp()
    ensures Trim("tp ") == "tp"
  {
    assert SkipSpaces("tp ", 0) == 0;
    assert SkipSpacesBack("tp ", 0, 3) == 2;
  }

  /** The filter turns "tp_" into "tp": the underscore becomes a space, which the trim removes. */
  lemma FilterTpUnderscore()
    ensures FilterAndCollapse(StripDiacritics("tp_")) == "tp"
  {
    StripTpUnderscore();
    KeepTpUnderscore();
    CollapseTp();
    TrimTp();
  }

  /** Every alias key is longer than "tp". */
  lemma AliasesTp()
    ensures ApplyAliases("tp", ProvinceAliases, |ProvinceAliases|) == "tp"
  {
    AliasesUnchanged("tp", ProvinceAliases, |ProvinceAliases|);
  }

  /** Text below U+00C0 without combining marks passes diacritic stripping unchanged. */
  lemma {:induction false} StripAscii(s: string)
    requires forall i :: 0 <= i < |s| ==> s[i] < '\U{C0}' && !IsCombiningMark(s[i])
    ensures StripDiacritics(s) == s
  {
    if s != [] {
      StripAscii(s[1..]);
      assert s == [s[0]] + s[1..];
    }
  }

  /** Collapsing leaves a text with single plain spaces as it is. */
  lemma {:induction false} CollapseFixes(s: string)
    requires NoDoubleSpace(s) && OnlyPlainSpace(s)
    ensures Collapse(s) == s
    decreases |s|
  {
    if s != [] {
      InfixNoDoubleSpace(s, 1, |s|);
      InfixOnlyPlainSpace(s, 1, |s|);
      CollapseFixes(s[1..]);
      if IsSpace(s[0]) {
        assert SpaceRun(s) == 1;
      }
      assert s == [s[0]] + s[1..];
    }
  }

  /** The character filter leaves canonical text as it is. */
  lemma FilterFixesCanonical(s: string)
    requires Canonical(s)
    ensures FilterAndCollapse(s) == s
  {
    assert ReplaceDStroke(s) == s;
    assert KeepClass(s) == s;
    CollapseFixes(s);
  }

  /** The character filter is idempotent. */
  lemma FilterIdempotent(s: string)
    ensures FilterAndCollapse(FilterAndCollapse(s)) == FilterAndCollapse(s)
  {
    FilterFixesCanonical(FilterAndCollapse(s));
  }

  /** `\b` holds in "thanh pho" only at the ends of its two words. */
  lemma ThanhPhoBoundaries(j: nat)
    requires j <= 9 && BoundaryAt("thanh pho", j)
    ensures j == 0 || j == 5 || j == 6 || j == 9
  {
  }

  /** "tp" is the first key and expands to "thanh pho"; no later key matches a whole word of that. */
  lemma ExpandTp()
    ensures ExpandAbbreviations("tp", Abbreviations, |Abbreviations|) == "thanh pho"
  {
    var t := "thanh pho";
    ReplaceWholeWord("tp", [Compile("tp")], "thanh pho", 0);
    assert ExpandAbbreviations("tp", Abbreviations, 1) == t;
    forall i, j | 1 <= i < |Abbreviations| && 0 <= j <= |t|
      ensures !WordAt(t, j, Compile(Abbreviations[i].0))
    {
      var p := Compile(Abbreviations[i].0);
      if WordAt(t, j, p) {
        ThanhPhoBoundaries(j);
        ThanhPhoBoundaries(j + |p|);
      }
    }
    ExpandUnchanged("tp", Abbreviations, 1, |Abbreviations|);
  }

  /** No alias key occurs in "thanh pho": each holds a character that text lacks. */
  lemma AliasesThanhPho()
    ensures ApplyAliases("thanh pho", ProvinceAliases, |ProvinceAliases|) == "thanh pho"
  {
    var t := "thanh pho";
    forall i | 0 <= i < |ProvinceAliases|
      ensures !Includes(t, ProvinceAliases[i].0)
    {
      var key := ProvinceAliases[i].0;
      if i == 5 || i == 6 {
        NotIncludesWithout(t, key, 'c');
      } else if i < 3 || 7 <= i < 9 {
        NotIncludesWithout(t, key, '\U{E0}');
      } else if i < 5 {
        NotIncludesWithout(t, key, '\U{1ED3}');
      } else if i < 11 {
        NotIncludesWithout(t, key, '\U{1EA7}');
      } else {
        NotIncludesWithout(t, key, '\U{1EA3}');
      }
    }
    AliasesUnchanged(t, ProvinceAliases, |ProvinceAliases|);
  }

  lemma NormalizeTpUnderscore()
    ensures Normalize("tp_") == "tp"
  {
    var expanded := ExpandAbbreviations(Lowercase("tp_"), Abbreviations, |Abbreviations|);
    assert expanded == "tp_" by {
      assert Lowercase("tp_") == "tp_";
      ExpandTpUnderscore();
    }
    assert FilterAndCollapse(StripDiacritics(expanded)) == "tp" by {
      FilterTpUnderscore();
    }
    AliasesTp();
  }

  lemma StripThanhPho()
    ensures StripDiacritics("thanh pho") == "thanh pho"
  {
    StripAscii("thanh pho");
  }

  lemma CanonicalThanhPho()
    ensures Canonical("thanh pho")
  {
    var t := "thanh pho";
    assert forall i :: 0 <= i < |t| ==> IsLowerAlnum(t[i]) || t[i] == ' ';
    AlphabetOnlyPlainSpace(t);
  }

  lemma FilterThanhPho()
    ensures FilterAndCollapse(StripDiacritics("thanh pho")) == "thanh pho"
  {
    StripThanhPho();
    CanonicalThanhPho();
    FilterFixesCanonical("thanh pho");
  }

  lemma NormalizeTp()
    ensures Normalize("tp") == "thanh pho"
  {
    var expanded := ExpandAbbreviations(Lowercase("tp"), Abbreviations, |Abbreviations|);
    assert expanded == "thanh pho" by {
      assert Lowercase("tp") == "tp";
      ExpandTp();
    }
    assert FilterAndCollapse(StripDiacritics(expanded)) == "thanh pho" by {
      FilterThanhPho();
    }
    AliasesThanhPho();
  }

  /**
   * `normalizeText` is not idempotent: "tp_" normalizes to "tp" (the
   * underscore is a word character, so `\btp\b` does not match before the
   * filter turns it into a space), and "tp" normalizes to "thanh pho".
   */
  lemma NormalizeNotIdempotent()
    ensures NormalizeText(Str("tp_")) == "tp"
    ensures NormalizeText(Str(NormalizeText(Str("tp_")))) == "thanh pho"
  {
    assert NormalizeText(Str("tp_")) == "tp" by {
      NormalizeTpUnderscore();
    }
    assert NormalizeText(Str("tp")) == "thanh pho" by {
      NormalizeTp();
    }
  }

  // ------------------------------------------------ "Hà Nội" becomes "ha noi"

  /** A character strictly between two neighbours of an increasing table is not in it. */
  lemma Between(t: string, k: nat, c: char)
    requires Increasing(t) && k + 1 < |t| && t[k] < c < t[k + 1]
    ensures c !in t
  {
    forall i | 0 <= i < |t|
      ensures t[i] != c
    {
      if i < k { assert t[i] < t[k]; } else if i > k + 1 { assert t[k + 1] < t[i]; }
    }
  }

  /** `à` lies between `Ý` and `Ă` in the capital table, `ộ` between `Ộ` and `Ớ`: neither is a capital. */
  lemma HaNoiLowerLetters()
    ensures LowerChar('\U{E0}') == '\U{E0}' && LowerChar('\U{1ED9}') == '\U{1ED9}'
  {
    UpperTable();
    assert UpperLetters[15] == '\U{DD}' && UpperLetters[16] == '\U{102}';
    assert UpperLetters[50] == '\U{1ED8}' && UpperLetters[51] == '\U{1EDA}';
    Between(UpperLetters, 15, '\U{E0}');
    Between(UpperLetters, 50, '\U{1ED9}');
  }

  /** Only the two ASCII capitals change. */
  lemma LowercaseHaNoi()
    ensures Lowercase("H\U{E0} N\U{1ED9}i") == "h\U{E0} n\U{1ED9}i"
  {
    var s := "H\U{E0} N\U{1ED9}i";
    HaNoiLowerLetters();
    assert LowerChar(' ') == ' ' && LowerChar('i') == 'i';
    assert LowerChar('H') == 'h' && LowerChar('N') == 'n';
    var r := Lowercase(s);
    assert r[0] == 'h' && r[1] == '\U{E0}' && r[2] == ' ' && r[3] == 'n' && r[4] == '\U{1ED9}' && r[5] == 'i';
  }

  /**
   * The ASCII word characters of "hà nội" are the single letters `h`, `n`
   * and `i`; every abbreviation key has two or more characters and none
   * starts with a letter followed by `à`: no abbreviation applies.
   */
  lemma ExpandHaNoi()
    ensures ExpandAbbreviations("h\U{E0} n\U{1ED9}i", Abbreviations, |Abbreviations|) == "h\U{E0} n\U{1ED9}i"
  {
    var s := "h\U{E0} n\U{1ED9}i";
    forall i, j | 0 <= i < |Abbreviations| && 0 <= j <= |s|
      ensures !WordAt(s, j, Compile(Abbreviations[i].0))
    {
    }
    ExpandUnchanged(s, Abbreviations, 0, |Abbreviations|);
  }

  /** `à` is the first letter of the table and `ộ` the fifty-first; their bases are `a` and `o`. */
  lemma StripAccented()
    ensures StripChar('\U{E0}') == "a" && StripChar('\U{1ED9}') == "o"
  {
    assert LowerLetters[0] == '\U{E0}' && BaseLetters[0] == 'a';
    assert LowerLetters[50] == '\U{1ED9}' && BaseLetters[50] == 'o';
  }

  /** Below U+00E0, which no letter of the table is, a character is kept. */
  lemma StripKeeps(c: char)
    requires c < '\U{E0}' && !IsCombiningMark(c)
    ensures StripChar(c) == [c]
  {
    LowerTable();
  }

  lemma StripHaNoi()
    ensures StripDiacritics("h\U{E0} n\U{1ED9}i") == "ha noi"
  {
    StripAccented();
    StripKeeps('h');
    StripKeeps(' ');
    StripKeeps('n');
    StripKeeps('i');
    assert StripDiacritics("i") == "i";
    assert StripDiacritics("\U{1ED9}i") == "oi";
    assert StripDiacritics("n\U{1ED9}i") == "noi";
    assert StripDiacritics(" n\U{1ED9}i") == " noi";
    assert StripDiacritics("\U{E0} n\U{1ED9}i") == "a noi";
  }

  lemma FilterHaNoi()
    ensures FilterAndCollapse("ha noi") == "ha noi"
  {
    var t := "ha noi";
    assert forall i :: 0 <= i < |t| ==> IsLowerAlnum(t[i]) || t[i] == ' ';
    AlphabetOnlyPlainSpace(t);
    FilterFixesCanonical(t);
  }

  /** Every alias key holds `à`, `ả` or `c`, none of which is left in "ha noi". */
  lemma AliasesHaNoi()
    ensures ApplyAliases("ha noi", ProvinceAliases, |ProvinceAliases|) == "ha noi"
  {
    var t := "ha noi";
    forall i | 0 <= i < |ProvinceAliases|
      ensures !Includes(t, ProvinceAliases[i].0)
    {
      var key := ProvinceAliases[i].0;
      if 3 <= i < 7 || 9 <= i < 11 {
        NotIncludesWithout(t, key, 'c');
      } else if i < 11 {
        NotIncludesWithout(t, key, '\U{E0}');
      } else {
        NotIncludesWithout(t, key, '\U{1EA3}');
      }
    }
    AliasesUnchanged(t, ProvinceAliases, |ProvinceAliases|);
  }

  /**
   * The capital letters are lowered and the diacritics stripped, and nothing
   * else happens: `normalizeText('Hà Nội')` is `'ha noi'`, which is also why
   * the alias keys written with diacritics can never match.
   */
  lemma NormalizeHaNoi()
    ensures NormalizeText(Str("H\U{E0} N\U{1ED9}i")) == "ha noi"
  {
    LowercaseHaNoi();
    ExpandHaNoi();
    StripHaNoi();
    FilterHaNoi();
    AliasesHaNoi();
  }
}
