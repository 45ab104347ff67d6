/**
 * The category mini-parser shared by both controllers: the luxury flag
 * (esGranLujo) and the star count (extraerNumero) read from the free-text
 * `categories` field of a hotel.
 */
module Category {
  import opened Wrappers
  import opened JavaString
  import opened JavaInteger

  /** The keyword esGranLujo looks for, in lower case. */
  const LUJO: string := "lujo"

  /** The star count returned when the first word is not a number. */
  const UNPARSEABLE: int := -1

  /** esGranLujo: false for a null category, otherwise whether the lower-cased text contains "lujo". */
  predicate EsGranLujo(category: Option<string>)
  {
    category.Some? && Contains(ToLowerCase(category.value), LUJO)
  }

  /** The luxury test is a case-insensitive search for the keyword anywhere in the text. */
  lemma EsGranLujoIgnoresCase(category: Option<string>)
    ensures EsGranLujo(category)
            <==> category.Some? && exists i :: OccursAtIgnoringCase(category.value, LUJO, i)
  {
    if category.Some? {
      ContainsLowerIffOccursIgnoringCase(category.value, LUJO);
    }
  }

  /**
   * The categories extraerNumero accepts without throwing. A non-empty text
   * made of spaces alone splits into no parts, and reading the first part
   * raises an index exception that the method does not catch.
   */
  predicate HasFirstPart(category: Option<string>)
  {
    category.None? || category.value == "" || exists i :: 0 <= i < |category.value| && category.value[i] != ' '
  }

  /** The text before the first space (all of it when there is none). */
  function FirstWord(s: string): (w: string)
    ensures ' ' !in w
  {
    s[..IndexOfChar(s, ' ')]
  }

  /**
   * extraerNumero: 0 for a null or empty category; otherwise the first part of
   * splitting on " ", parsed as an `int`, or -1 when it is not a valid `int`.
   */
  function ExtraerNumero(category: Option<string>): Int32
    requires HasFirstPart(category)
  {
    if category.None? || category.value == "" then 0
    else
      var partes := Split(category.value, ' ');
      SplitEmptyIff(category.value, ' ');
      SplitHead(category.value, ' ');
      match ParseInt(partes[0])
      case Some(v) => v
      case None => UNPARSEABLE
  }

  /**
   * The star count read without splitting the whole text: 0 for a null or
   * empty category, otherwise the text before the first space parsed as an
   * `int`, or -1 when it is not one.
   */
  lemma ExtraerNumeroReadsFirstWord(category: Option<string>)
    requires HasFirstPart(category)
    ensures category.None? || category.value == "" ==> ExtraerNumero(category) == 0
    ensures category.Some? && category.value != "" ==>
              ExtraerNumero(category) == ParseInt(FirstWord(category.value)).GetOr(UNPARSEABLE)
  {
    if category.Some? && category.value != "" {
      SplitEmptyIff(category.value, ' ');
      SplitHead(category.value, ' ');
    }
  }

  /**
   * A category that starts with a printed number, alone or followed by a
   * space, yields that number when it fits in an `int` and -1 when it does
   * not: "4 estrellas" gives 4, "2147483648 estrellas" gives -1.
   */
  lemma ExtraerNumeroOfLeadingNumber(n: int, rest: string)
    ensures HasFirstPart(Some(IntToString(n) + " " + rest))
    ensures ExtraerNumero(Some(IntToString(n) + " " + rest)) == if MIN_VALUE <= n <= MAX_VALUE then n else UNPARSEABLE
    ensures HasFirstPart(Some(IntToString(n)))
    ensures ExtraerNumero(Some(IntToString(n))) == if MIN_VALUE <= n <= MAX_VALUE then n else UNPARSEABLE
  {
    var d := IntToString(n);
    var s := d + " " + rest;
    IntToStringHasNoSpace(n);
    ParseIntToString(n);
    assert s[0] == d[0] != ' ';
    assert d[0] != ' ';
    ExtraerNumeroReadsFirstWord(Some(s));
    ExtraerNumeroReadsFirstWord(Some(d));
    assert IndexOfChar(s, ' ') == |d| by {
      assert forall k :: 0 <= k < |d| ==> s[k] == d[k];
      assert s[|d|] == ' ';
    }
    assert s[..|d|] == d;
    assert IndexOfChar(d, ' ') == |d|;
  }

  /** A category whose first character is a space has an empty first part, which never parses. */
  lemma ExtraerNumeroOfLeadingSpace(s: string)
    requires |s| > 0 && s[0] == ' '
    requires HasFirstPart(Some(s))
    ensures ExtraerNumero(Some(s)) == UNPARSEABLE
  {
    ExtraerNumeroReadsFirstWord(Some(s));
  }

  /** The unparseable marker -1 is also what the category "-1" parses to. */
  lemma UnparseableCollidesWithMinusOne()
    ensures HasFirstPart(Some("-1")) && ExtraerNumero(Some("-1")) == UNPARSEABLE
  {
    ExtraerNumeroOfLeadingNumber(-1, "");
    assert IntToString(-1) == "-1";
  }

  /** Example: "4 estrellas" has four stars. */
  lemma ExtraerNumeroOfCuatroEstrellas()
    ensures HasFirstPart(Some("4 estrellas")) && ExtraerNumero(Some("4 estrellas")) == 4
  {
    var f := "4 estrellas";
    assert f[0] != ' ';
    ExtraerNumeroReadsFirstWord(Some(f));
    assert IndexOfChar(f, ' ') == 1 by {
      assert f[1] == ' ';
    }
    assert IntToString(4) == [DigitChar(4)] && DigitChar(4) == '4';
    assert FirstWord(f) == IntToString(4);
    ParseIntToString(4);
  }

  /**
   * A category whose first character is neither a space, a sign nor a digit
   * has a first part that never parses, so it reads as -1.
   */
  lemma ExtraerNumeroOfWordStart(s: string)
    requires |s| > 0 && s[0] != ' ' && s[0] != '-' && s[0] != '+' && !IsDigit(s[0])
    ensures HasFirstPart(Some(s)) && ExtraerNumero(Some(s)) == UNPARSEABLE
  {
    ExtraerNumeroReadsFirstWord(Some(s));
    var w := FirstWord(s);
    assert |w| > 0 && w[0] == s[0];
    assert ParseInt(w).None? by {
      assert !AllDigits(w) by {
        assert !IsDigit(w[0]);
      }
    }
  }

  /** Example: "cinco estrellas" does not start with a number. */
  lemma ExtraerNumeroOfCincoEstrellas()
    ensures HasFirstPart(Some("cinco estrellas")) && ExtraerNumero(Some("cinco estrellas")) == UNPARSEABLE
  {
    var c := "cinco estrellas";
    assert c[0] == 'c';
    ExtraerNumeroOfWordStart(c);
  }

  /**
   * Example: only the space character empties the split. A category made of
   * a tab alone has a first part, which is not a number.
   */
  lemma ExtraerNumeroOfTab()
    ensures HasFirstPart(Some("\t")) && ExtraerNumero(Some("\t")) == UNPARSEABLE
  {
    var c := "\t";
    assert c[0] == '\t';
    ExtraerNumeroOfWordStart(c);
  }

  /** Every occurrence of the keyword needs a 'u' or a 'U'. */
  lemma LuxuryNeedsLetterU(s: string)
    requires forall k :: 0 <= k < |s| ==> LowerChar(s[k]) != 'u'
    ensures !EsGranLujo(Some(s))
  {
    EsGranLujoIgnoresCase(Some(s));
    if exists i :: OccursAtIgnoringCase(s, LUJO, i) {
      var i :| OccursAtIgnoringCase(s, LUJO, i);
      assert LowerChar(s[i + 1]) == LUJO[1];
    }
  }

  /** Example: "Gran Lujo" is luxury. */
  lemma EsGranLujoOfGranLujo()
    ensures EsGranLujo(Some("Gran Lujo"))
  {
    var g := "Gran Lujo";
    EsGranLujoIgnoresCase(Some(g));
    assert g[5] == 'L' && g[6] == 'u' && g[7] == 'j' && g[8] == 'o';
    assert OccursAtIgnoringCase(g, LUJO, 5);
  }

  /** Example: the test ignores case, so "GRAN LUJO" is luxury too. */
  lemma EsGranLujoOfUpperCase()
    ensures EsGranLujo(Some("GRAN LUJO"))
  {
    var u := "GRAN LUJO";
    EsGranLujoIgnoresCase(Some(u));
    assert u[5] == 'L' && u[6] == 'U' && u[7] == 'J' && u[8] == 'O';
    assert OccursAtIgnoringCase(u, LUJO, 5);
  }

  /** Example: "4 estrellas" is not luxury. */
  lemma EsGranLujoOfCuatroEstrellas()
    ensures !EsGranLujo(Some("4 estrellas"))
  {
    var e := "4 estrellas";
    forall k | 0 <= k < |e|
      ensures LowerChar(e[k]) != 'u'
    {
      assert e[k] in e;
    }
    LuxuryNeedsLetterU(e);
  }
}
