/**
 * The row cleaner of Clean.py: `clean_layoff_data` rewrites the caller's
 * table column by column (percentages, funding, calendar fields, estimated
 * company size and its bucket, missing places) and hands the same table back.
 *
 * Lemmas about a fixed text ("N/A", "$1,000", a "$" prefix) take that text
 * as a parameter pinned by a `requires` (`requires t == "N/A"`): the verifier
 * then treats it as one term instead of expanding the literal character by
 * character at every step, which keeps those proofs small.
 */
module Clean {
  import opened Wrappers
  import opened Strings
  import opened Numerals
  import opened Tables

  /** One cell of a column pandas holds as `object`: null (NaN or None), text, or a float. */
  datatype Cell = Missing | Text(text: string) | Number(n: Float)

  /** `str(value)`, and so `Series.astype(str)`: a null cell prints as nan. */
  function Str(c: Cell): string
  {
    match c
    case Missing => "nan"
    case Text(s) => s
    case Number(n) => Show(n)
  }

  /** The number a cleaned cell holds; null for a null cell. */
  function NumericValue(c: Cell): Option<real>
  {
    if c.Number? then Some(Value(c.n)) else None
  }

  /** The one error cleaning raises: Python's ValueError when text does not convert to a float. */
  datatype CleanError = ValueError(text: string)

  /**
   * `Series.apply(f)` for a conversion that may raise: the values of every
   * row, or the error of the first row (in row order) whose conversion raises.
   */
  function ApplyAll<A, B>(col: seq<A>, f: A -> Result<B, CleanError>): (r: Result<seq<B>, CleanError>)
    ensures r.Success? <==> forall i :: 0 <= i < |col| ==> f(col[i]).Success?
    ensures r.Success? ==> |r.value| == |col| && forall i :: 0 <= i < |col| ==> r.value[i] == f(col[i]).value
    ensures r.Failure? ==>
      exists i :: 0 <= i < |col| && f(col[i]) == Failure(r.error) && forall j :: 0 <= j < i ==> f(col[j]).Success?
  {
    if col == [] then Success([])
    else
      match f(col[0])
      case Failure(e) => Failure(e)
      case Success(b) =>
        match ApplyAll(col[1..], f)
        case Failure(e) =>
          assert exists i :: 1 <= i < |col| && f(col[i]) == Failure(e) && forall j :: 0 <= j < i ==> f(col[j]).Success? by {
            var i :| 0 <= i < |col[1..]| && f(col[1..][i]) == Failure(e) && forall j :: 0 <= j < i ==> f(col[1..][j]).Success?;
            assert forall j :: 1 <= j < i + 1 ==> col[j] == col[1..][j - 1];
          }
          Failure(e)
        case Success(bs) =>
          assert forall i :: 1 <= i < |col| ==> col[i] == col[1..][i - 1];
          Success([b] + bs)
  }

  // ---- percentage_laid_off ----

  /**
   * One cell of `percentage_laid_off` through `.astype(str)`, `.str.replace('%', '')`,
   * `.replace({'nan': None, 'None': None, '': None})` and `.astype(float)`.
   * Only the whole values nan, None and the empty text become null; no
   * whitespace is stripped before that test. Leftover text that is not a
   * number makes `astype(float)` raise.
   */
  function CleanPercentage(c: Cell): Result<Cell, CleanError>
  {
    var s := Remove(Str(c), '%');
    if s == "nan" || s == "None" || s == "" then Success(Missing)
    else
      match Parse(s)
      case Finite(n) => Success(Number(n))
      case NotANumber => Success(Missing)
      case Malformed => Failure(ValueError(s))
  }

  /** The text of a float is none of the tokens the percentage step maps to null. */
  lemma ShowIsNoNullToken(n: Float)
    ensures Remove(Show(n), '%') == Show(n)
    ensures Show(n) != "nan" && Show(n) != "None" && Show(n) != ""
  {
    ShowHasNoLetters(n, '%');
    ShowHasNoLetters(n, 'n');
    ShowHasNoLetters(n, 'N');
    RemoveAbsent(Show(n), '%');
    assert 'n' in "nan" && 'N' in "None";
    assert |Show(n)| > 0;
  }

  /** A null cell or a float passes through the percentage step unchanged. */
  lemma CleanPercentageKeepsCleaned(c: Cell)
    requires !c.Text?
    ensures CleanPercentage(c) == Success(c)
  {
    if c.Number? {
      ShowIsNoNullToken(c.n);
      ParseShow(c.n);
    } else {
      assert Remove("nan", '%') == "nan";
    }
  }

  /**
   * A cleaned cell is null or a float, and cleaning it again leaves it as
   * it is: the float is printed and read back to the same number. Only text
   * can make cleaning raise.
   */
  lemma CleanPercentageIdempotent(c: Cell)
    ensures CleanPercentage(c).Failure? ==> c.Text?
    ensures CleanPercentage(c).Success? ==> !CleanPercentage(c).value.Text?
    ensures CleanPercentage(c).Success? ==> CleanPercentage(CleanPercentage(c).value) == CleanPercentage(c)
  {
    if !c.Text? {
      CleanPercentageKeepsCleaned(c);
    } else if CleanPercentage(c).Success? {
      CleanPercentageKeepsCleaned(CleanPercentage(c).value);
    }
  }

  /** A number written with a trailing percent sign cleans to that number. */
  lemma CleanPercentageOfFormatted(n: Float)
    ensures CleanPercentage(Text(Show(n) + "%")) == Success(Number(n))
    ensures NumericValue(CleanPercentage(Text(Show(n) + "%")).value) == Some(Value(n))
  {
    PercentRemoved(n, "%");
    ShowIsNoNullToken(n);
    ParseShow(n);
  }

  /** A trailing `%` is the only one deleted; `pct` is the text "%" (see the module note). */
  lemma PercentRemoved(n: Float, pct: string)
    requires pct == "%"
    ensures Remove(Show(n) + pct, '%') == Show(n)
  {
    ShowHasNoLetters(n, '%');
    RemoveAppend(Show(n), pct, '%');
    RemoveAbsent(Show(n), '%');
    assert Remove(pct, '%') == "";
    assert Show(n) + "" == Show(n);
  }

  /**
   * Text that, with its `%` signs gone, is not a null token and holds a
   * character no number has, makes `astype(float)` raise on that text.
   */
  lemma CleanPercentageRejects(t: string, x: char)
    requires x in Remove(t, '%') && Remove(t, '%') != "None"
    requires !IsSpace(x) && !IsDigit(x) && x != '.' && x != '+' && x != '-'
    requires LowerChar(x) != 'n' && LowerChar(x) != 'a'
    ensures CleanPercentage(Text(t)) == Failure(ValueError(Remove(t, '%')))
  {
    var s := Remove(t, '%');
    ParseRejects(s, x);
  }

  // ---- funding ----

  /**
   * `parse_funding`: null stays null; otherwise the text loses every `$` and
   * `,` and is upper-cased. Text holding `M` is read without its `M`s and
   * scaled by a million; else text holding `B` is read without its `B`s and
   * scaled by a billion; these two reads are not guarded, so text that still
   * fails to convert raises. Any other text is read as a plain number, and
   * text that fails to convert gives null.
   */
  function ParseFunding(c: Cell): Result<Option<real>, CleanError>
  {
    if c.Missing? then Success(None) else FundingOfText(FundingText(c))
  }

  /** The branch on the suffix letters, applied to the normalised text. */
  function FundingOfText(v: string): Result<Option<real>, CleanError>
  {
    if 'M' in v then Scaled(Remove(v, 'M'), 1000000.0)
    else if 'B' in v then Scaled(Remove(v, 'B'), 1000000000.0)
    else
      match Parse(v)
      case Finite(n) => Success(Some(Value(n)))
      case _ => Success(None)
  }

  /** `str(value).replace('$', '').replace(',', '').upper()`. */
  function FundingText(c: Cell): string
  {
    Upper(Remove(Remove(Str(c), '$'), ','))
  }

  /** `float(t) * factor`, raising when `t` does not convert; NaN stays null. */
  function Scaled(t: string, factor: real): Result<Option<real>, CleanError>
  {
    match Parse(t)
    case Finite(n) => Success(Some(Value(n) * factor))
    case NotANumber => Success(None)
    case Malformed => Failure(ValueError(t))
  }

  /** Text that reads as a number, scaled by a million. */
  lemma ScaledMillions(t: string, n: Float)
    requires Parse(t) == Finite(n)
    ensures Scaled(t, 1000000.0) == Success(Some(Value(n) * 1000000.0))
  {
    assert Value(Parse(t).n) == Value(n);
  }

  /** Text that reads as a number, scaled by a billion. */
  lemma ScaledBillions(t: string, n: Float)
    requires Parse(t) == Finite(n)
    ensures Scaled(t, 1000000000.0) == Success(Some(Value(n) * 1000000000.0))
  {
    assert Value(Parse(t).n) == Value(n);
  }

  /** An amount scaled by what its suffix stands for: a million for `M`, a billion for `B`. */
  function WithSuffix(amount: real, suffix: string): real
  {
    if suffix == "M" || suffix == "m" then amount * 1000000.0
    else if suffix == "B" || suffix == "b" then amount * 1000000000.0
    else amount
  }


  lemma UpperOfShow(n: Float)
    ensures Upper(Show(n)) == Show(n)
  {
    var s := Show(n);
    forall i | 0 <= i < |s|
      ensures Upper(s)[i] == s[i]
    {
      UpperAt(s, i);
      assert s[i] in s;
      if IsLower(s[i]) {
        ShowHasNoLetters(n, s[i]);
      }
    }
  }

  /** Deleting `$` and `,` from text with an optional `$` in front, a suffix, and neither in between. */
  lemma NormaliseAround(prefix: string, s: string, suffix: string)
    requires prefix == "" || prefix == "$"
    requires '$' !in s && ',' !in s && '$' !in suffix && ',' !in suffix
    ensures Remove(Remove(prefix + s + suffix, '$'), ',') == s + suffix
  {
    if prefix == "$" {
      NormaliseDollar(prefix, s, suffix);
    } else {
      assert prefix + s + suffix == s + suffix;
      NormalisePlain(s, suffix);
    }
  }

  /** The leading-`$` case of `NormaliseAround`; `dollar` is the text "$" (see the module note). */
  lemma NormaliseDollar(dollar: string, s: string, suffix: string)
    requires dollar == "$"
    requires '$' !in s && ',' !in s && '$' !in suffix && ',' !in suffix
    ensures Remove(Remove(dollar + s + suffix, '$'), ',') == s + suffix
  {
    var t := s + suffix;
    assert dollar + s + suffix == dollar + t;
    assert Remove(dollar + t, '$') == Remove(t, '$') by {
      RemoveAppend(dollar, t, '$');
      assert Remove(dollar, '$') == [];
    }
    NormalisePlain(s, suffix);
  }

  lemma NormalisePlain(s: string, suffix: string)
    requires '$' !in s && ',' !in s && '$' !in suffix && ',' !in suffix
    ensures Remove(Remove(s + suffix, '$'), ',') == s + suffix
  {
    var t := s + suffix;
    assert Remove(t, '$') == t by {
      RemoveAbsent(s, '$');
      RemoveAbsent(suffix, '$');
      RemoveAppend(s, suffix, '$');
    }
    assert Remove(t, ',') == t by {
      RemoveAbsent(s, ',');
      RemoveAbsent(suffix, ',');
      RemoveAppend(s, suffix, ',');
    }
  }

  /** Text with no suffix letter that reads as a number is that amount. */
  lemma FundingOfPlain(s: string, n: Float)
    requires 'M' !in s && 'B' !in s && Parse(s) == Finite(n)
    ensures FundingOfText(s) == Success(Some(Value(n)))
  {
  }

  /** Text followed by one `M` is read without it and scaled by a million. */
  lemma FundingOfMillions(s: string)
    requires 'M' !in s
    ensures FundingOfText(s + "M") == Scaled(s, 1000000.0)
  {
    assert Remove(s + "M", 'M') == s by {
      RemoveAbsent(s, 'M');
      RemoveAppend(s, "M", 'M');
      assert Remove("M", 'M') == [];
    }
    assert (s + "M")[|s|] == 'M';
  }

  /** Text with no `M` followed by one `B` is read without it and scaled by a billion. */
  lemma FundingOfBillions(s: string)
    requires 'M' !in s && 'B' !in s
    ensures FundingOfText(s + "B") == Scaled(s, 1000000000.0)
  {
    assert Remove(s + "B", 'B') == s by {
      RemoveAbsent(s, 'B');
      RemoveAppend(s, "B", 'B');
      assert Remove("B", 'B') == [];
    }
    assert 'M' !in s + "B" && 'B' in s + "B" by {
      assert (s + "B")[|s|] == 'B';
    }
  }

  /** A printed number with no suffix is that number. */
  lemma FundingOfShowPlain(n: Float)
    ensures FundingOfText(Show(n)) == Success(Some(Value(n)))
  {
    assert 'M' !in Show(n) && 'B' !in Show(n) by {
      ShowHasNoLetters(n, 'M');
      ShowHasNoLetters(n, 'B');
    }
    assert Parse(Show(n)) == Finite(n) by {
      ParseShow(n);
    }
    FundingOfPlain(Show(n), n);
  }

  /** A printed number followed by `M` is that many millions. */
  lemma FundingOfShowMillions(n: Float)
    ensures FundingOfText(Show(n) + "M") == Success(Some(Value(n) * 1000000.0))
  {
    assert FundingOfText(Show(n) + "M") == Scaled(Show(n), 1000000.0) by {
      ShowHasNoLetters(n, 'M');
      FundingOfMillions(Show(n));
    }
    assert Scaled(Show(n), 1000000.0) == Success(Some(Value(n) * 1000000.0)) by {
      ParseShow(n);
      ScaledMillions(Show(n), n);
    }
  }


  /** A printed number followed by `B` is that many billions. */
  lemma FundingOfShowBillions(n: Float)
    ensures FundingOfText(Show(n) + "B") == Success(Some(Value(n) * 1000000000.0))
  {
    assert FundingOfText(Show(n) + "B") == Scaled(Show(n), 1000000000.0) by {
      ShowHasNoLetters(n, 'M');
      ShowHasNoLetters(n, 'B');
      FundingOfBillions(Show(n));
    }
    assert Scaled(Show(n), 1000000000.0) == Success(Some(Value(n) * 1000000000.0)) by {
      ParseShow(n);
      ScaledBillions(Show(n), n);
    }
  }


  /**
   * Funding written the usual way, an optional dollar sign, a number and an
   * optional M or B suffix in either case, parses to that number times the
   * suffix's scale.
   */
  lemma ParseFundingOfFormatted(prefix: string, n: Float, suffix: string)
    requires prefix == "" || prefix == "$"
    requires suffix == "" || suffix == "M" || suffix == "m" || suffix == "B" || suffix == "b"
    ensures ParseFunding(Text(prefix + Show(n) + suffix)) == Success(Some(WithSuffix(Value(n), suffix)))
  {
    var s := Show(n);
    var c := Text(prefix + s + suffix);
    FormattedText(prefix, n, suffix);
    if suffix == "" {
      ParseFundingVia(c, s);
      FundingOfShowPlain(n);
    } else if suffix == "M" || suffix == "m" {
      ParseFundingVia(c, s + "M");
      FundingOfShowMillions(n);
    } else {
      ParseFundingVia(c, s + "B");
      FundingOfShowBillions(n);
    }
  }

  lemma ParseFundingVia(c: Cell, v: string)
    requires !c.Missing? && FundingText(c) == v
    ensures ParseFunding(c) == FundingOfText(v)
  {
  }

  /** The normalised text of a formatted amount is the number and the upper-cased suffix. */
  lemma FormattedText(prefix: string, n: Float, suffix: string)
    requires prefix == "" || prefix == "$"
    requires suffix == "" || suffix == "M" || suffix == "m" || suffix == "B" || suffix == "b"
    ensures FundingText(Text(prefix + Show(n) + suffix)) == Show(n) + Upper(suffix)
    ensures Upper(suffix) == (if suffix == "m" then "M" else if suffix == "b" then "B" else suffix)
  {
    var s := Show(n);
    ShowHasNoLetters(n, '$');
    ShowHasNoLetters(n, ',');
    NormaliseAround(prefix, s, suffix);
    UpperOfShow(n);
    UpperAppend(s, suffix);
  }

  /** A cell that already holds a parsed amount parses to that amount again. */
  lemma ParseFundingOfNumber(n: Float)
    ensures ParseFunding(Number(n)) == Success(Some(Value(n)))
  {
    var s := Show(n);
    assert ParseFunding(Number(n)) == FundingOfText(s) by {
      ShowHasNoLetters(n, '$');
      ShowHasNoLetters(n, ',');
      RemoveAbsent(s, '$');
      RemoveAbsent(s, ',');
      UpperOfShow(n);
    }
    FundingOfShowPlain(n);
  }

  /**
   * M takes precedence over B: text holding both loses only its `M`s, keeps
   * a `B`, and so always makes `parse_funding` raise.
   */
  lemma ParseFundingBothSuffixes(c: Cell)
    requires !c.Missing? && 'M' in FundingText(c) && 'B' in FundingText(c)
    ensures ParseFunding(c).Failure?
  {
    ParseFundingVia(c, FundingText(c));
    BothSuffixesRaise(FundingText(c));
  }

  lemma BothSuffixesRaise(v: string)
    requires 'M' in v && 'B' in v
    ensures FundingOfText(v).Failure?
  {
    var t := Remove(v, 'M');
    RemoveKeeps(v, 'M', 'B');
    ParseRejects(t, 'B');
    assert FundingOfText(v) == Scaled(t, 1000000.0);
  }

  /** Text that holds none of `$`, `,` and the lower-case letters is its own normalised funding text. */
  lemma FundingTextUnchanged(t: string)
    requires '$' !in t && ',' !in t
    requires forall i :: 0 <= i < |t| ==> !IsLower(t[i])
    ensures FundingText(Text(t)) == t
  {
    RemoveAbsent(t, '$');
    RemoveAbsent(t, ',');
    forall i | 0 <= i < |t|
      ensures Upper(t)[i] == t[i]
    {
      UpperAt(t, i);
    }
  }

  /** "$1,000" loses its dollar sign and comma and reads as 1000. */
  lemma ParseFundingOfThousand(t: string)
    requires t == "$1,000"
    ensures ParseFunding(Text(t)) == Success(Some(1000.0))
  {
    var thousand: Float := Numeral(false, "1000", "");
    ThousandText(t, thousand);
    ParseFundingVia(Text(t), Show(thousand));
    FundingOfShowPlain(thousand);
    ValueOfThousand(thousand);
  }

  /** "$1,000" normalises to the text of the numeral 1000. */
  lemma ThousandText(t: string, thousand: Float)
    requires t == "$1,000" && thousand == Numeral(false, "1000", "")
    ensures FundingText(Text(t)) == Show(thousand)
  {
    var a, b := "1", "000";
    assert t == "$" + a + "," + b;
    assert Show(thousand) == a + b;
    FundingTextOfGrouped(a, b);
  }

  /** A dollar amount written with one thousands comma normalises to its digits. */
  lemma FundingTextOfGrouped(a: string, b: string)
    requires AllDigits(a) && AllDigits(b)
    ensures FundingText(Text("$" + a + "," + b)) == a + b
  {
    DollarRemoved(a, b);
    CommaRemoved(a, b);
    UpperOfDigits(a, b);
  }

  lemma DollarRemoved(a: string, b: string)
    requires AllDigits(a) && AllDigits(b)
    ensures Remove("$" + a + "," + b, '$') == a + [','] + b
  {
    var body := a + [','] + b;
    DigitsHaveNo(a, '$');
    DigitsHaveNo(b, '$');
    assert "$" + a + "," + b == ['$'] + body;
    RemoveFirst('$', body);
    RemoveAbsent(body, '$');
  }

  lemma CommaRemoved(a: string, b: string)
    requires AllDigits(a) && AllDigits(b)
    ensures Remove(a + [','] + b, ',') == a + b
  {
    var ac := a + [','];
    assert Remove(ac, ',') == a by {
      DigitsHaveNo(a, ',');
      RemoveAppend(a, [','], ',');
      RemoveAbsent(a, ',');
      assert Remove([','], ',') == [];
    }
    assert Remove(b, ',') == b by {
      DigitsHaveNo(b, ',');
      RemoveAbsent(b, ',');
    }
    RemoveAppend(ac, b, ',');
  }

  /** Upper-casing leaves digits alone. */
  lemma UpperOfDigits(a: string, b: string)
    requires AllDigits(a) && AllDigits(b)
    ensures Upper(a + b) == a + b
  {
    var digits := a + b;
    forall i | 0 <= i < |digits|
      ensures Upper(digits)[i] == digits[i]
    {
      UpperAt(digits, i);
      assert IsDigit(digits[i]) by {
        if i < |a| {
          assert digits[i] == a[i];
        } else {
          assert digits[i] == b[i - |a|];
        }
      }
    }
  }

  /** A digit string holds no character other than a digit. */
  lemma DigitsHaveNo(s: string, c: char)
    requires AllDigits(s) && !IsDigit(c)
    ensures c !in s
  {
    forall i | 0 <= i < |s|
      ensures s[i] != c
    {
      assert IsDigit(s[i]);
    }
  }

  lemma ValueOfThousand(thousand: Float)
    requires thousand == Numeral(false, "1000", "")
    ensures Value(thousand) == 1000.0
  {
    assert "1000"[..3] == "100" && "100"[..2] == "10" && "10"[..1] == "1" && "1"[..0] == "";
  }

  /** "$1.5M" is 1.5 million. */
  lemma ParseFundingOfMillionsExample()
    ensures ParseFunding(Text("$1.5M")) == Success(Some(1500000.0))
  {
    var oneAndHalf: Float := Numeral(false, "1", "5");
    assert ParseFunding(Text("$1.5M")) == Success(Some(WithSuffix(Value(oneAndHalf), "M"))) by {
      assert "$1.5M" == "$" + Show(oneAndHalf) + "M";
      ParseFundingOfFormatted("$", oneAndHalf, "M");
    }
    assert Value(oneAndHalf) == 1.5 by {
      assert "1"[..0] == "" && "5"[1..] == "";
    }
  }

  /** "$2b" is 2 billion: the suffix is upper-cased before it is looked for. */
  lemma ParseFundingOfBillionsExample()
    ensures ParseFunding(Text("$2b")) == Success(Some(2000000000.0))
  {
    var two: Float := Numeral(false, "2", "");
    assert ParseFunding(Text("$2b")) == Success(Some(WithSuffix(Value(two), "b"))) by {
      assert "$2b" == "$" + Show(two) + "b";
      ParseFundingOfFormatted("$", two, "b");
    }
    assert Value(two) == 2.0 by {
      assert "2"[..0] == "";
    }
  }

  /** Text that is not a number and holds neither suffix letter gives null. */
  lemma ParseFundingOfNotApplicable(t: string)
    requires t == "N/A"
    ensures ParseFunding(Text(t)) == Success(None)
  {
    assert ParseFunding(Text(t)) == FundingOfText(t) by {
      FundingTextUnchanged(t);
    }
    assert 'M' !in t && 'B' !in t && '/' in t;
    ParseRejects(t, '/');
  }

  /**
   * Text that is not a number but holds a suffix letter raises: "ABC" holds
   * a B, is read as "AC" outside the guard, and fails.
   */
  lemma ParseFundingOfLetters(t: string)
    requires t == "ABC"
    ensures Remove(t, 'B') == "AC"
    ensures ParseFunding(Text(t)) == Failure(ValueError(Remove(t, 'B')))
  {
    LettersAreBillions(t);
    var u := Remove(t, 'B');
    assert 'C' in u;
    ParseRejects(u, 'C');
  }

  /** "ABC" takes the `B` branch with "AC" left to convert. */
  lemma LettersAreBillions(t: string)
    requires t == "ABC"
    ensures Remove(t, 'B') == "AC"
    ensures ParseFunding(Text(t)) == Scaled(Remove(t, 'B'), 1000000000.0)
  {
    FundingTextUnchanged(t);
    assert 'M' !in t && 'B' in t;
    assert t == ['A'] + "BC";
    RemoveFirst('B', "C");
  }

  /** Funding text that holds no minus sign never parses to a negative amount. */
  lemma ParseFundingNonNegative(c: Cell)
    requires '-' !in Str(c)
    ensures ParseFunding(c).Success? && ParseFunding(c).value.Some? ==> ParseFunding(c).value.value >= 0.0
  {
    if !c.Missing? {
      var v := FundingText(c);
      var w := Remove(Remove(Str(c), '$'), ',');
      assert '-' !in w by {
        RemoveKeeps(Str(c), '$', '-');
        RemoveKeeps(Remove(Str(c), '$'), ',', '-');
      }
      assert '-' !in v by {
        forall i | 0 <= i < |v| ensures v[i] != '-' {
          UpperAt(w, i);
          assert w[i] in w;
        }
      }
      FundingOfTextNonNegative(v);
    }
  }

  lemma FundingOfTextNonNegative(v: string)
    requires '-' !in v
    ensures FundingOfText(v).Success? && FundingOfText(v).value.Some? ==> FundingOfText(v).value.value >= 0.0
  {
    RemoveKeeps(v, 'M', '-');
    RemoveKeeps(v, 'B', '-');
    var t := if 'M' in v then Remove(v, 'M') else if 'B' in v then Remove(v, 'B') else v;
    if Parse(t).Finite? {
      if Parse(t).n.negative {
        ParseNegativeNeedsMinus(t);
      }
      ValueNonNegative(Parse(t).n);
    }
  }

  // ---- company size ----

  /** Python's `int(x)` on a float: truncation toward zero. */
  function Trunc(x: real): int
  {
    if x >= 0.0 then x.Floor else -((-x).Floor)
  }

  /**
   * `estimate_size`: `int(total / (pct / 100))` when both are present and
   * the percentage is positive, otherwise null.
   */
  function EstimateSize(total: Option<real>, pct: Option<real>): Option<int>
  {
    if total.Some? && pct.Some? && pct.value > 0.0 then
      Some(Trunc(total.value / (pct.value / 100.0)))
    else None
  }

  lemma ScaledFloorBounds(t: real, p: real, n: int)
    requires p > 0.0 && t >= 0.0
    requires n as real <= t / (p / 100.0) < n as real + 1.0
    ensures n as real * p <= 100.0 * t < (n + 1) as real * p
  {
    var q := t / (p / 100.0);
    assert q * p == 100.0 * t;
    var m := n as real + 1.0;
    assert (q - n as real) * p >= 0.0;
    assert (q - n as real) * p == q * p - n as real * p;
    assert (m - q) * p > 0.0;
    assert (m - q) * p == m * p - q * p;
    assert (n + 1) as real * p == m * p;
    assert 100.0 * t < m * p;
    assert n as real * p <= 100.0 * t;
  }

  /**
   * The size estimate is present exactly when total and percentage are and the
   * percentage is positive. It is then the whole number of employees that
   * `total` is `pct` percent of, cut toward zero: for a non-negative total
   * the largest n with n * pct <= 100 * total.
   */
  lemma EstimateSizeSpec(total: Option<real>, pct: Option<real>)
    ensures EstimateSize(total, pct).Some? <==> total.Some? && pct.Some? && pct.value > 0.0
    ensures EstimateSize(total, pct).Some? && total.value >= 0.0 ==>
      var n := EstimateSize(total, pct).value;
      n >= 0 && n as real * pct.value <= 100.0 * total.value < (n + 1) as real * pct.value
    ensures EstimateSize(total, pct).Some? && total.value < 0.0 ==>
      var n := EstimateSize(total, pct).value;
      n <= 0 && (n - 1) as real * pct.value < 100.0 * total.value <= n as real * pct.value
  {
    if EstimateSize(total, pct).Some? {
      var t, p := total.value, pct.value;
      var n := EstimateSize(total, pct).value;
      if t >= 0.0 {
        assert t / (p / 100.0) >= 0.0;
        ScaledFloorBounds(t, p, n);
      } else {
        assert (-t) / (p / 100.0) == -(t / (p / 100.0));
        ScaledFloorBounds(-t, p, -n);
      }
    }
  }

  /** The four buckets of `company_size_category`. */
  datatype SizeCategory = Small | Mid | Large | Unknown

  function Label(c: SizeCategory): string
  {
    match c
    case Small => "Small (<500)"
    case Mid => "Mid (500\U{2013}4999)"
    case Large => "Large (5000+)"
    case Unknown => "Unknown"
  }

  /** `categorize_size`. */
  function Categorize(size: Option<int>): SizeCategory
  {
    if size.None? then Unknown
    else if size.value < 500 then Small
    else if size.value < 5000 then Mid
    else Large
  }

  /** The buckets' boundaries, and that each bucket has its own label. */
  lemma CategorizeBoundaries()
    ensures Categorize(Some(499)) == Small && Categorize(Some(500)) == Mid
    ensures Categorize(Some(4999)) == Mid && Categorize(Some(5000)) == Large
    ensures Categorize(None) == Unknown
    ensures forall a, b :: Label(a) == Label(b) ==> a == b
  {
  }

  // ---- calendar ----

  type Month = m: int | 1 <= m <= 12 witness 1

  type DayOfMonth = d: int | 1 <= d <= 31 witness 1

  /** A parsed calendar date. */
  datatype Date = Date(year: int, month: Month, day: DayOfMonth)

  type QuarterNumber = q: int | 1 <= q <= 4 witness 1

  /** A pandas quarterly Period such as 2023Q1. */
  datatype Quarter = Quarter(year: int, q: QuarterNumber)

  /** `.dt.to_period('Q')` on one date. */
  function QuarterOfDate(d: Date): Quarter
  {
    Quarter(d.year, (d.month - 1) / 3 + 1)
  }

  function YearOf(d: Option<Date>): Option<int>
  {
    if d.Some? then Some(d.value.year) else None
  }

  function MonthOf(d: Option<Date>): Option<int>
  {
    if d.Some? then Some(d.value.month) else None
  }

  function QuarterOf(d: Option<Date>): Option<Quarter>
  {
    if d.Some? then Some(QuarterOfDate(d.value)) else None
  }

  /**
   * Year, month and quarter are null exactly when the date is. The month is
   * in 1..12, and the quarter is the one of that year whose three months
   * include it.
   */
  lemma CalendarSpec(d: Option<Date>)
    ensures YearOf(d).None? <==> d.None?
    ensures MonthOf(d).None? <==> d.None?
    ensures QuarterOf(d).None? <==> d.None?
    ensures d.Some? ==> 1 <= MonthOf(d).value <= 12
    ensures d.Some? ==> QuarterOf(d).value.year == YearOf(d).value
    ensures d.Some? ==> var q := QuarterOf(d).value.q;
      3 * (q - 1) + 1 <= MonthOf(d).value <= 3 * q
  {
  }

  /** Two dates fall in the same quarter exactly when they share the year and the three-month block. */
  lemma SameQuarter(a: Date, b: Date)
    ensures QuarterOfDate(a) == QuarterOfDate(b) <==> a.year == b.year && (a.month - 1) / 3 == (b.month - 1) / 3
  {
  }

  // ---- places ----

  /** `fillna('Unknown')` on one cell. */
  function FillUnknown(v: Option<string>): Option<string>
  {
    if v.None? then Some("Unknown") else v
  }

  // ---- the table ----

  /**
   * The columns of the layoffs table that cleaning reads or writes, one
   * sequence per column. The derived columns (from `fundsRaisedClean` on)
   * are absent, that is empty, until the table is first cleaned.
   */
  datatype Frame = Frame(
    company: seq<Option<string>>,
    location: seq<Option<string>>,
    country: seq<Option<string>>,
    date: seq<Option<Date>>,
    totalLaidOff: seq<Option<real>>,
    percentageLaidOff: seq<Cell>,
    fundsRaised: seq<Cell>,
    fundsRaisedClean: seq<Option<real>>,
    year: seq<Option<int>>,
    month: seq<Option<int>>,
    quarter: seq<Option<Quarter>>,
    estimatedCompanySize: seq<Option<int>>,
    companySizeCategory: seq<SizeCategory>)
  {
    function Rows(): nat
    {
      |company|
    }

    /** The columns read from the file have one entry per row. */
    predicate Rectangular()
    {
      |location| == |country| == |date| == |totalLaidOff| == |percentageLaidOff| == |fundsRaised| == |company|
    }

    /** Every column, the derived ones too, has one entry per row. */
    predicate Complete()
    {
      && Rectangular()
      && |fundsRaisedClean| == |year| == |month| == |quarter| == |company|
      && |estimatedCompanySize| == |companySizeCategory| == |company|
    }
  }

  /** The table as cleaning leaves it, and the error cleaning raised, if any. */
  datatype CleanOutcome = CleanOutcome(frame: Frame, error: Option<CleanError>)

  /** `df.apply(estimate_size, axis=1)`: the size estimate of every row. */
  function Sizes(total: seq<Option<real>>, pct: seq<Cell>): (r: seq<Option<int>>)
    requires |total| == |pct|
    ensures |r| == |total|
    ensures forall i :: 0 <= i < |r| ==> r[i] == EstimateSize(total[i], NumericValue(pct[i]))
  {
    seq(|total|, i requires 0 <= i < |total| => EstimateSize(total[i], NumericValue(pct[i])))
  }

  /**
   * `clean_layoff_data` on a table: the column steps in source order. The
   * percentage step converts the whole column before assigning it, so when
   * one cell raises the table is left as it was. `parse_funding` raises
   * after the percentage column has been replaced, and leaves it replaced.
   */
  function Cleaned(f: Frame): CleanOutcome
    requires f.Rectangular()
  {
    match ApplyAll(f.percentageLaidOff, CleanPercentage)
    case Failure(e) => CleanOutcome(f, Some(e))
    case Success(pct) =>
      var f1 := f.(percentageLaidOff := pct);
      match ApplyAll(f.fundsRaised, ParseFunding)
      case Failure(e) => CleanOutcome(f1, Some(e))
      case Success(funds) => CleanOutcome(Derived(f1, funds), None)
  }

  /** The steps after the two that can raise: funding, calendar, size, bucket, places. */
  function Derived(f: Frame, funds: seq<Option<real>>): Frame
    requires f.Rectangular()
  {
    var sizes := Sizes(f.totalLaidOff, f.percentageLaidOff);
    f.(fundsRaisedClean := funds,
       year := Map(f.date, YearOf),
       month := Map(f.date, MonthOf),
       quarter := Map(f.date, QuarterOf),
       estimatedCompanySize := sizes,
       companySizeCategory := Map(sizes, Categorize),
       country := Map(f.country, FillUnknown),
       location := Map(f.location, FillUnknown))
  }

  /** The caller's DataFrame, which `clean_layoff_data` updates in place. */
  class LayoffTable {
    var company: seq<Option<string>>
    var location: seq<Option<string>>
    var country: seq<Option<string>>
    var date: seq<Option<Date>>
    var totalLaidOff: seq<Option<real>>
    var percentageLaidOff: seq<Cell>
    var fundsRaised: seq<Cell>
    var fundsRaisedClean: seq<Option<real>>
    var year: seq<Option<int>>
    var month: seq<Option<int>>
    var quarter: seq<Option<Quarter>>
    var estimatedCompanySize: seq<Option<int>>
    var companySizeCategory: seq<SizeCategory>

    function Columns(): Frame
      reads this
    {
      Frame(company, location, country, date, totalLaidOff, percentageLaidOff, fundsRaised,
        fundsRaisedClean, year, month, quarter, estimatedCompanySize, companySizeCategory)
    }

    predicate Valid()
      reads this
    {
      Columns().Rectangular()
    }

    /** A table as read from the file: the given columns, none of the derived ones. */
    constructor (company: seq<Option<string>>, location: seq<Option<string>>, country: seq<Option<string>>,
                 date: seq<Option<Date>>, totalLaidOff: seq<Option<real>>, percentageLaidOff: seq<Cell>,
                 fundsRaised: seq<Cell>)
      requires |location| == |country| == |date| == |totalLaidOff| == |percentageLaidOff| == |fundsRaised| == |company|
      ensures Valid()
      ensures Columns() == Frame(company, location, country, date, totalLaidOff, percentageLaidOff, fundsRaised,
        [], [], [], [], [], [])
    {
      this.company := company;
      this.location := location;
      this.country := country;
      this.date := date;
      this.totalLaidOff := totalLaidOff;
      this.percentageLaidOff := percentageLaidOff;
      this.fundsRaised := fundsRaised;
      fundsRaisedClean := [];
      year := [];
      month := [];
      quarter := [];
      estimatedCompanySize := [];
      companySizeCategory := [];
    }
  }

  /**
   * `clean_layoff_data(df)`: rewrites the caller's table column by column and
   * returns that same table, or stops at the first step that raises, leaving
   * the columns already assigned in place.
   */
  method CleanLayoffData(df: LayoffTable) returns (r: Result<LayoffTable, CleanError>)
    requires df.Valid()
    modifies df
    ensures df.Columns() == Cleaned(old(df.Columns())).frame
    ensures r.Success? <==> Cleaned(old(df.Columns())).error.None?
    ensures r.Success? ==> r.value == df && df.Columns().Complete()
    ensures r.Failure? ==> Cleaned(old(df.Columns())).error == Some(r.error)
  {
    var pct := ApplyAll(df.percentageLaidOff, CleanPercentage);
    if pct.Failure? {
      return Failure(pct.error);
    }
    df.percentageLaidOff := pct.value;
    var funds := ApplyAll(df.fundsRaised, ParseFunding);
    if funds.Failure? {
      return Failure(funds.error);
    }
    df.fundsRaisedClean := funds.value;
    df.year := Map(df.date, YearOf);
    df.month := Map(df.date, MonthOf);
    df.quarter := Map(df.date, QuarterOf);
    df.estimatedCompanySize := Sizes(df.totalLaidOff, df.percentageLaidOff);
    df.companySizeCategory := Map(df.estimatedCompanySize, Categorize);
    df.country := Map(df.country, FillUnknown);
    df.location := Map(df.location, FillUnknown);
    return Success(df);
  }

  /** "10%" cleans to the float 10.0. */
  lemma CleanPercentageExample(pct: string)
    requires pct == "10%"
    ensures CleanPercentage(Text(pct)).Success?
    ensures NumericValue(CleanPercentage(Text(pct)).value) == Some(10.0)
  {
    var ten: Float := Numeral(false, "10", "");
    assert CleanPercentage(Text(pct)) == Success(Number(ten)) by {
      assert pct == Show(ten) + "%";
      CleanPercentageOfFormatted(ten);
    }
    assert Value(ten) == 10.0 by {
      assert "10"[..1] == "1" && "1"[..0] == "";
    }
  }

  /**
   * 100 laid off at 10 percent estimates 1000 employees, a Mid company, and
   * 2023-03-15 falls in 2023Q1.
   */
  lemma DerivedColumnsExample()
    ensures EstimateSize(Some(100.0), Some(10.0)) == Some(1000)
    ensures Categorize(EstimateSize(Some(100.0), Some(10.0))) == Mid
    ensures QuarterOf(Some(Date(2023, 3, 15))) == Some(Quarter(2023, 1))
  {
    assert 100.0 / (10.0 / 100.0) == 1000.0;
  }

  // ---- what cleaning promises ----

  /**
   * Cleaning raises exactly when some percentage cell or some funding cell
   * does. A percentage error leaves the table as it was; a funding error
   * leaves every column but the percentages as it was. The error is the one
   * of the first cell that raises, percentages before funding.
   */
  lemma CleanedRaises(f: Frame)
    requires f.Rectangular()
    ensures Cleaned(f).error.None? <==>
      && (forall i :: 0 <= i < f.Rows() ==> CleanPercentage(f.percentageLaidOff[i]).Success?)
      && (forall i :: 0 <= i < f.Rows() ==> ParseFunding(f.fundsRaised[i]).Success?)
    ensures (exists i :: 0 <= i < f.Rows() && CleanPercentage(f.percentageLaidOff[i]).Failure?) ==>
      Cleaned(f).frame == f
    ensures Cleaned(f).error.Some? ==> Cleaned(f).frame.(percentageLaidOff := f.percentageLaidOff) == f
    ensures Cleaned(f).error.Some? ==>
      exists i :: 0 <= i < f.Rows() &&
        (CleanPercentage(f.percentageLaidOff[i]) == Failure(Cleaned(f).error.value) ||
         ParseFunding(f.fundsRaised[i]) == Failure(Cleaned(f).error.value))
  {
  }

  /**
   * A cleaned table has every column at full length; the columns cleaning
   * only reads are unchanged; no row is added, dropped or moved.
   */
  /**
   * One percentage cell that does not convert makes the whole call raise
   * and leaves every column as it was.
   */
  lemma CleanedRejectsPercentage(f: Frame, i: nat, x: char)
    requires f.Rectangular() && i < f.Rows() && f.percentageLaidOff[i].Text?
    requires x in Remove(f.percentageLaidOff[i].text, '%') && Remove(f.percentageLaidOff[i].text, '%') != "None"
    requires !IsSpace(x) && !IsDigit(x) && x != '.' && x != '+' && x != '-'
    requires LowerChar(x) != 'n' && LowerChar(x) != 'a'
    ensures Cleaned(f).error.Some? && Cleaned(f).frame == f
  {
    CleanPercentageRejects(f.percentageLaidOff[i].text, x);
    CleanedRaises(f);
  }

  /**
   * A funding cell raises only when its normalised text holds `M` or `B` and
   * what is left once those letters are gone does not convert. Text with
   * neither letter never raises: it is a number, or null when it does not
   * convert.
   */
  lemma ParseFundingRaisesOnlyWithSuffix(c: Cell)
    ensures var v := FundingText(c);
      ParseFunding(c).Failure? <==>
        && !c.Missing?
        && (if 'M' in v then Parse(Remove(v, 'M')).Malformed? else 'B' in v && Parse(Remove(v, 'B')).Malformed?)
    ensures var v := FundingText(c);
      !c.Missing? && 'M' !in v && 'B' !in v ==>
        && ParseFunding(c).Success?
        && (ParseFunding(c).value.Some? <==> Parse(v).Finite?)
  {
  }

  lemma CleanedShape(f: Frame)
    requires f.Rectangular() && Cleaned(f).error.None?
    ensures Cleaned(f).frame.Complete() && Cleaned(f).frame.Rows() == f.Rows()
    ensures Cleaned(f).frame.company == f.company && Cleaned(f).frame.date == f.date
    ensures Cleaned(f).frame.totalLaidOff == f.totalLaidOff && Cleaned(f).frame.fundsRaised == f.fundsRaised
  {
  }

  /** After cleaning no place is null, and a place that was known is kept. */
  lemma CleanedPlaces(f: Frame, i: nat)
    requires f.Rectangular() && Cleaned(f).error.None? && i < f.Rows()
    ensures Cleaned(f).frame.country[i].Some? && Cleaned(f).frame.location[i].Some?
    ensures f.country[i].Some? ==> Cleaned(f).frame.country[i] == f.country[i]
    ensures f.location[i].Some? ==> Cleaned(f).frame.location[i] == f.location[i]
    ensures f.country[i].None? ==> Cleaned(f).frame.country[i] == Some("Unknown")
    ensures f.location[i].None? ==> Cleaned(f).frame.location[i] == Some("Unknown")
  {
  }

  /**
   * A cleaned percentage is a float or null; one that was already a float
   * or null is kept. A funding amount is null when the raw cell is, and is
   * the raw float itself when the cell already held one.
   */
  lemma CleanedAmounts(f: Frame, i: nat)
    requires f.Rectangular() && Cleaned(f).error.None? && i < f.Rows()
    ensures !Cleaned(f).frame.percentageLaidOff[i].Text?
    ensures !f.percentageLaidOff[i].Text? ==> Cleaned(f).frame.percentageLaidOff[i] == f.percentageLaidOff[i]
    ensures f.fundsRaised[i].Missing? ==> Cleaned(f).frame.fundsRaisedClean[i].None?
    ensures f.fundsRaised[i].Number? ==> Cleaned(f).frame.fundsRaisedClean[i] == Some(Value(f.fundsRaised[i].n))
  {
    var g := Cleaned(f).frame;
    CleanPercentageIdempotent(f.percentageLaidOff[i]);
    if !f.percentageLaidOff[i].Text? {
      CleanPercentageKeepsCleaned(f.percentageLaidOff[i]);
    }
    if f.fundsRaised[i].Number? {
      ParseFundingOfNumber(f.fundsRaised[i].n);
    }
  }

  /**
   * Year, month and quarter are null exactly where the date is; otherwise
   * the month is in 1..12 and the quarter is that year's quarter holding it.
   */
  lemma CleanedCalendar(f: Frame, i: nat)
    requires f.Rectangular() && Cleaned(f).error.None? && i < f.Rows()
    ensures var g := Cleaned(f).frame;
      && (g.year[i].None? <==> f.date[i].None?)
      && (g.month[i].None? <==> f.date[i].None?)
      && (g.quarter[i].None? <==> f.date[i].None?)
      && (f.date[i].Some? ==>
            && 1 <= g.month[i].value <= 12
            && g.quarter[i].value == Quarter(g.year[i].value, (g.month[i].value - 1) / 3 + 1))
  {
    CalendarSpec(f.date[i]);
  }

  /**
   * The size estimate is present exactly when the total is and the cleaned
   * percentage is a positive number, and its bucket is Unknown exactly when
   * it is absent, Small below 500, Mid below 5000 and Large from there.
   */
  lemma CleanedSizes(f: Frame, i: nat)
    requires f.Rectangular() && Cleaned(f).error.None? && i < f.Rows()
    ensures var g := Cleaned(f).frame;
      var pct := NumericValue(g.percentageLaidOff[i]);
      var size := g.estimatedCompanySize[i];
      && (size.Some? <==> f.totalLaidOff[i].Some? && pct.Some? && pct.value > 0.0)
      && (g.companySizeCategory[i] == Unknown <==> size.None?)
      && (g.companySizeCategory[i] == Small <==> size.Some? && size.value < 500)
      && (g.companySizeCategory[i] == Mid <==> size.Some? && 500 <= size.value < 5000)
      && (g.companySizeCategory[i] == Large <==> size.Some? && size.value >= 5000)
  {
    var g := Cleaned(f).frame;
    EstimateSizeSpec(f.totalLaidOff[i], NumericValue(g.percentageLaidOff[i]));
  }

  /**
   * Cleaning is idempotent: a cleaned table cleans without error to itself.
   * Floats print and read back to the same float, funding is recomputed from
   * the untouched raw column, and no place is null any more.
   */
  lemma CleanedIdempotent(f: Frame)
    requires f.Rectangular() && Cleaned(f).error.None?
    ensures Cleaned(f).frame.Rectangular()
    ensures Cleaned(Cleaned(f).frame) == Cleaned(f)
  {
    var g := Cleaned(f).frame;
    var n := f.Rows();
    assert ApplyAll(g.percentageLaidOff, CleanPercentage) == Success(g.percentageLaidOff) by {
      forall i | 0 <= i < n
        ensures CleanPercentage(g.percentageLaidOff[i]) == Success(g.percentageLaidOff[i])
      {
        CleanedAmounts(f, i);
        CleanPercentageKeepsCleaned(g.percentageLaidOff[i]);
      }
      var r := ApplyAll(g.percentageLaidOff, CleanPercentage);
      assert r.Success?;
      assert r.value == g.percentageLaidOff;
    }
    var funds := ApplyAll(f.fundsRaised, ParseFunding).value;
    var h := Derived(g, funds);
    assert h.country == g.country by {
      forall i | 0 <= i < n ensures h.country[i] == g.country[i] {
        CleanedPlaces(f, i);
      }
    }
    assert h.location == g.location by {
      forall i | 0 <= i < n ensures h.location[i] == g.location[i] {
        CleanedPlaces(f, i);
      }
    }
  }
}
