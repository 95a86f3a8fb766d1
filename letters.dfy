/**
 * The Vietnamese letters that `toLowerCase` and `normalize('NFD')` are
 * modelled on (app.js:129, 138): three aligned tables, sorted by the code
 * point of the capital, of the capital, its lower-case form, and what NFD
 * leaves of the lower-case form once the combining marks are dropped (`đ`
 * has no decomposition).
 *
 * Each table is written in pieces of ten letters so that the facts about it
 * are checked piece by piece and then joined.
 */
module Letters {
  import opened JsText

  const Upper0: string := "ÀÁÂÃÈÉÊÌÍÒ"
  const Upper1: string := "ÓÔÕÙÚÝĂĐĨŨ"
  const Upper2: string := "ƠƯẠẢẤẦẨẪẬẮ"
  const Upper3: string := "ẰẲẴẶẸẺẼẾỀỂ"
  const Upper4: string := "ỄỆỈỊỌỎỐỒỔỖ"
  const Upper5: string := "ỘỚỜỞỠỢỤỦỨỪ"
  const Upper6: string := "ỬỮỰỲỴỶỸ"

  const Lower0: string := "àáâãèéêìíò"
  const Lower1: string := "óôõùúýăđĩũ"
  const Lower2: string := "ơưạảấầẩẫậắ"
  const Lower3: string := "ằẳẵặẹẻẽếềể"
  const Lower4: string := "ễệỉịọỏốồổỗ"
  const Lower5: string := "ộớờởỡợụủứừ"
  const Lower6: string := "ửữựỳỵỷỹ"

  const Base0: string := "aaaaeeeiio"
  const Base1: string := "ooouuyađiu"
  const Base2: string := "ouaaaaaaaa"
  const Base3: string := "aaaaeeeeee"
  const Base4: string := "eeiioooooo"
  const Base5: string := "oooooouuuu"
  const Base6: string := "uuuyyyy"

  const UpperLetters: string := Upper0 + Upper1 + Upper2 + Upper3 + Upper4 + Upper5 + Upper6
  const LowerLetters: string := Lower0 + Lower1 + Lower2 + Lower3 + Lower4 + Lower5 + Lower6
  const BaseLetters: string := Base0 + Base1 + Base2 + Base3 + Base4 + Base5 + Base6

  /** The block U+0300..U+036F that `replace(/[\u0300-\u036f]/g, '')` removes. */
  predicate IsCombiningMark(c: char) {
    '\U{300}' <= c <= '\U{36F}'
  }

  predicate AboveLatin(c: char) {
    c >= '\U{C0}'
  }

  /** A lower-case Vietnamese letter lies above U+00DF and is not a combining mark. */
  predicate LowerLetter(c: char) {
    c >= '\U{E0}' && !IsCombiningMark(c)
  }

  predicate BaseLetter(c: char) {
    IsLowerAlnum(c) || c == 'đ'
  }

  predicate All(t: string, P: char -> bool) {
    forall i :: 0 <= i < |t| ==> P(t[i])
  }

  /** Each letter is below the next. */
  predicate Ascending(t: string) {
    forall i :: 0 <= i < |t| - 1 ==> t[i] < t[i + 1]
  }

  /** Strictly increasing, hence without repetition. */
  predicate Increasing(t: string) {
    forall i, j :: 0 <= i < j < |t| ==> t[i] < t[j]
  }

  lemma Upper0Facts() ensures Ascending(Upper0) && All(Upper0, AboveLatin) {}
  lemma Upper1Facts() ensures Ascending(Upper1) && All(Upper1, AboveLatin) {}
  lemma Upper2Facts() ensures Ascending(Upper2) && All(Upper2, AboveLatin) {}
  lemma Upper3Facts() ensures Ascending(Upper3) && All(Upper3, AboveLatin) {}
  lemma Upper4Facts() ensures Ascending(Upper4) && All(Upper4, AboveLatin) {}
  lemma Upper5Facts() ensures Ascending(Upper5) && All(Upper5, AboveLatin) {}
  lemma Upper6Facts() ensures Ascending(Upper6) && All(Upper6, AboveLatin) {}

  lemma Lower0Facts() ensures Ascending(Lower0) && All(Lower0, LowerLetter) {}
  lemma Lower1Facts() ensures Ascending(Lower1) && All(Lower1, LowerLetter) {}
  lemma Lower2Facts() ensures Ascending(Lower2) && All(Lower2, LowerLetter) {}
  lemma Lower3Facts() ensures Ascending(Lower3) && All(Lower3, LowerLetter) {}
  lemma Lower4Facts() ensures Ascending(Lower4) && All(Lower4, LowerLetter) {}
  lemma Lower5Facts() ensures Ascending(Lower5) && All(Lower5, LowerLetter) {}
  lemma Lower6Facts() ensures Ascending(Lower6) && All(Lower6, LowerLetter) {}

  lemma Base0Facts() ensures All(Base0, BaseLetter) {}
  lemma Base1Facts() ensures All(Base1, BaseLetter) {}
  lemma Base2Facts() ensures All(Base2, BaseLetter) {}
  lemma Base3Facts() ensures All(Base3, BaseLetter) {}
  lemma Base4Facts() ensures All(Base4, BaseLetter) {}
  lemma Base5Facts() ensures All(Base5, BaseLetter) {}
  lemma Base6Facts() ensures All(Base6, BaseLetter) {}

  lemma AscendingJoin(a: string, b: string)
    requires Ascending(a) && Ascending(b) && (a == [] || b == [] || a[|a| - 1] < b[0])
    ensures Ascending(a + b)
  {
    var t := a + b;
    forall i | 0 <= i < |t| - 1
      ensures t[i] < t[i + 1]
    {
      if i + 1 < |a| {
        assert t[i] == a[i] && t[i + 1] == a[i + 1];
      } else if i >= |a| {
        assert t[i] == b[i - |a|] && t[i + 1] == b[i + 1 - |a|];
      } else {
        assert t[i] == a[|a| - 1] && t[i + 1] == b[0];
      }
    }
  }

  lemma AllJoin(a: string, b: string, P: char -> bool)
    requires All(a, P) && All(b, P)
    ensures All(a + b, P)
  {
    var t := a + b;
    forall i | 0 <= i < |t|
      ensures P(t[i])
    {
      if i < |a| { assert t[i] == a[i]; } else { assert t[i] == b[i - |a|]; }
    }
  }

  /** Ascending letter by letter is increasing throughout. */
  lemma {:induction false} AscendingIncreasing(t: string)
    requires Ascending(t)
    ensures Increasing(t)
    decreases |t|
  {
    if |t| > 1 {
      var u := t[1..];
      assert Ascending(u) by {
        forall i | 0 <= i < |u| - 1
          ensures u[i] < u[i + 1]
        {
          assert u[i] == t[i + 1] && u[i + 1] == t[i + 2];
        }
      }
      AscendingIncreasing(u);
      forall i, j | 0 <= i < j < |t|
        ensures t[i] < t[j]
      {
        if i == 0 {
          assert t[0] < t[1];
          if j > 1 { assert u[0] < u[j - 1]; }
        } else {
          assert u[i - 1] < u[j - 1];
        }
      }
    }
  }

  /** The capitals are distinct and none is below U+00C0; the three tables have the same length. */
  lemma UpperTable()
    ensures |UpperLetters| == |LowerLetters| == |BaseLetters| == 67
    ensures Increasing(UpperLetters) && All(UpperLetters, AboveLatin)
  {
    Upper0Facts(); Upper1Facts(); Upper2Facts(); Upper3Facts(); Upper4Facts(); Upper5Facts(); Upper6Facts();
    AscendingJoin(Upper0, Upper1);
    AllJoin(Upper0, Upper1, AboveLatin);
    AscendingJoin(Upper0 + Upper1, Upper2);
    AllJoin(Upper0 + Upper1, Upper2, AboveLatin);
    AscendingJoin(Upper0 + Upper1 + Upper2, Upper3);
    AllJoin(Upper0 + Upper1 + Upper2, Upper3, AboveLatin);
    AscendingJoin(Upper0 + Upper1 + Upper2 + Upper3, Upper4);
    AllJoin(Upper0 + Upper1 + Upper2 + Upper3, Upper4, AboveLatin);
    AscendingJoin(Upper0 + Upper1 + Upper2 + Upper3 + Upper4, Upper5);
    AllJoin(Upper0 + Upper1 + Upper2 + Upper3 + Upper4, Upper5, AboveLatin);
    AscendingJoin(Upper0 + Upper1 + Upper2 + Upper3 + Upper4 + Upper5, Upper6);
    AllJoin(Upper0 + Upper1 + Upper2 + Upper3 + Upper4 + Upper5, Upper6, AboveLatin);
    AscendingIncreasing(UpperLetters);
  }

  /** The lower-case forms are distinct, lie above U+00DF and are not combining marks. */
  lemma LowerTable()
    ensures Increasing(LowerLetters) && All(LowerLetters, LowerLetter)
  {
    Lower0Facts(); Lower1Facts(); Lower2Facts(); Lower3Facts(); Lower4Facts(); Lower5Facts(); Lower6Facts();
    AscendingJoin(Lower0, Lower1);
    AllJoin(Lower0, Lower1, LowerLetter);
    AscendingJoin(Lower0 + Lower1, Lower2);
    AllJoin(Lower0 + Lower1, Lower2, LowerLetter);
    AscendingJoin(Lower0 + Lower1 + Lower2, Lower3);
    AllJoin(Lower0 + Lower1 + Lower2, Lower3, LowerLetter);
    AscendingJoin(Lower0 + Lower1 + Lower2 + Lower3, Lower4);
    AllJoin(Lower0 + Lower1 + Lower2 + Lower3, Lower4, LowerLetter);
    AscendingJoin(Lower0 + Lower1 + Lower2 + Lower3 + Lower4, Lower5);
    AllJoin(Lower0 + Lower1 + Lower2 + Lower3 + Lower4, Lower5, LowerLetter);
    AscendingJoin(Lower0 + Lower1 + Lower2 + Lower3 + Lower4 + Lower5, Lower6);
    AllJoin(Lower0 + Lower1 + Lower2 + Lower3 + Lower4 + Lower5, Lower6, LowerLetter);
    AscendingIncreasing(LowerLetters);
  }

  /** Every base letter is in `a-z` or is `đ`. */
  lemma BaseTable()
    ensures All(BaseLetters, BaseLetter)
  {
    Base0Facts(); Base1Facts(); Base2Facts(); Base3Facts(); Base4Facts(); Base5Facts(); Base6Facts();
    AllJoin(Base0, Base1, BaseLetter);
    AllJoin(Base0 + Base1, Base2, BaseLetter);
    AllJoin(Base0 + Base1 + Base2, Base3, BaseLetter);
    AllJoin(Base0 + Base1 + Base2 + Base3, Base4, BaseLetter);
    AllJoin(Base0 + Base1 + Base2 + Base3 + Base4, Base5, BaseLetter);
    AllJoin(Base0 + Base1 + Base2 + Base3 + Base4 + Base5, Base6, BaseLetter);
  }
}
