/**
 * The input rules of the student form: the field validators, the
 * sanitisers that strip forbidden characters as the user types, the
 * truncating phone and BI (identity card number) masks, and the ordered
 * check chain run before a student is saved. A form field's value is
 * `Option<string>` because the widget may hold `None`.
 */
module AlunoValidation {
  import opened Wrappers
  import opened Chars

  // ---------------------------------------------------------------------
  // Character classes and string helpers

  /** The class `[A-Za-zÀ-ÖØ-öø-ÿ\s'\-]` of `NAME_RE` and of the name sanitiser. */
  predicate IsNameChar(c: char)
  {
    || IsAsciiLetter(c)
    || '\U{C0}' <= c <= '\U{D6}'
    || '\U{D8}' <= c <= '\U{F6}'
    || '\U{F8}' <= c <= '\U{FF}'
    || IsSpace(c)
    || c == '\''
    || c == '-'
  }

  /** `s or ""`. */
  function OrEmpty(s: Option<string>): string
  {
    if s.Some? then s.value else ""
  }

  /** Python truthiness of a field value: neither `None` nor empty. */
  predicate Filled(v: Option<string>)
  {
    v.Some? && v.value != ""
  }

  /** `str.lstrip()`. */
  function StripLeft(s: string): (r: string)
    ensures |r| <= |s| && r == s[|s| - |r|..]
    ensures forall i :: 0 <= i < |s| - |r| ==> IsSpace(s[i])
    ensures r == [] || !IsSpace(r[0])
  {
    if s != [] && IsSpace(s[0]) then
      var r := StripLeft(s[1..]);
      assert forall i :: 1 <= i < |s| ==> s[i] == s[1..][i - 1];
      r
    else s
  }

  /** `str.rstrip()`. */
  function StripRight(s: string): (r: string)
    ensures |r| <= |s| && r == s[..|r|]
    ensures forall i :: |r| <= i < |s| ==> IsSpace(s[i])
    ensures r == [] || !IsSpace(r[|r| - 1])
  {
    if s != [] && IsSpace(s[|s| - 1]) then
      var r := StripRight(s[..|s| - 1]);
      assert forall i :: 0 <= i < |s| - 1 ==> s[i] == s[..|s| - 1][i];
      r
    else s
  }

  /** `str.strip()`. */
  function Strip(s: string): (r: string)
    ensures |r| <= |s|
    ensures r == [] || (!IsSpace(r[0]) && !IsSpace(r[|r| - 1]))
  {
    assert StripRight(StripLeft(s)) == [] || StripRight(StripLeft(s))[0] == StripLeft(s)[0];
    StripRight(StripLeft(s))
  }

  /**
   * `strip` cuts `s` into leading whitespace, a core that neither starts
   * nor ends with whitespace, and trailing whitespace.
   */
  lemma StripParts(s: string) returns (lead: nat)
    ensures lead + |Strip(s)| <= |s|
    ensures Strip(s) == s[lead..lead + |Strip(s)|]
    ensures forall i :: 0 <= i < lead ==> IsSpace(s[i])
    ensures forall i :: lead + |Strip(s)| <= i < |s| ==> IsSpace(s[i])
    ensures Strip(s) == [] || (!IsSpace(Strip(s)[0]) && !IsSpace(Strip(s)[|Strip(s)| - 1]))
  {
    lead := |s| - |StripLeft(s)|;
    PrefixOfSuffix(s, lead, StripLeft(s), Strip(s));
  }

  /** A prefix `t` of the suffix `l` of `s` from `lead` on is the slice of `s` at `lead`. */
  lemma PrefixOfSuffix(s: string, lead: nat, l: string, t: string)
    requires lead <= |s| && l == s[lead..] && |t| <= |l| && t == l[..|t|]
    ensures t == s[lead..lead + |t|]
    ensures forall i :: lead + |t| <= i < |s| ==> s[i] == l[i - lead]
  {
    forall i | 0 <= i < |t| ensures t[i] == s[lead + i] {
      assert t[i] == l[i];
    }
  }

  /** A string without whitespace is its own `strip()`. */
  lemma StripWithoutSpaces(s: string)
    requires forall i :: 0 <= i < |s| ==> !IsSpace(s[i])
    ensures Strip(s) == s
  {
    assert s == [] || !IsSpace(s[0]);
    assert StripLeft(s) == s;
    assert s == [] || !IsSpace(s[|s| - 1]);
  }

  /** `s[:n]`. */
  function Take(s: string, n: nat): (r: string)
    ensures |r| <= n && |r| <= |s|
    ensures r == s[..|r|]
    ensures |s| <= n ==> r == s
    ensures n <= |s| ==> |r| == n
  {
    if |s| <= n then s else s[..n]
  }

  /** `a` is `b` with some characters deleted. */
  predicate IsSubsequence(a: string, b: string)
  {
    if a == [] then true
    else if b == [] then false
    else if a[0] == b[0] then IsSubsequence(a[1..], b[1..])
    else IsSubsequence(a, b[1..])
  }

  /** `re.sub("[^<class>]", "", s)`: the characters of `s` in the class, in order. */
  function Keep(s: string, inClass: char -> bool): (r: string)
    ensures |r| <= |s|
    ensures forall i :: 0 <= i < |r| ==> inClass(r[i])
    ensures forall c :: c in r <==> c in s && inClass(c)
    ensures forall c :: multiset(r)[c] == if inClass(c) then multiset(s)[c] else 0
  {
    if s == [] then ""
    else
      assert s == [s[0]] + s[1..];
      assert multiset(s) == multiset{s[0]} + multiset(s[1..]);
      (if inClass(s[0]) then [s[0]] else "") + Keep(s[1..], inClass)
  }

  lemma {:induction false} KeepIsSubsequence(s: string, inClass: char -> bool)
    ensures IsSubsequence(Keep(s, inClass), s)
  {
    if s != [] {
      KeepIsSubsequence(s[1..], inClass);
      var rest := Keep(s[1..], inClass);
      if inClass(s[0]) {
        assert Keep(s, inClass) == [s[0]] + rest;
        assert ([s[0]] + rest)[1..] == rest;
      } else {
        assert Keep(s, inClass) == rest;
        SkipKeepsSubsequence(rest, s);
      }
    }
  }

  /** A subsequence of `b[1..]` is a subsequence of `b`. */
  lemma {:induction false} SkipKeepsSubsequence(a: string, b: string)
    requires b != [] && IsSubsequence(a, b[1..])
    ensures IsSubsequence(a, b)
  {
    if a != [] && a[0] == b[0] {
      // IsSubsequence(a[1..], b[1..]) follows from a subsequence of b[1..] starting with a[0]
      DropHeadKeepsSubsequence(a, b[1..]);
    }
  }

  /** Dropping the first character keeps a subsequence a subsequence. */
  lemma {:induction false} DropHeadKeepsSubsequence(a: string, b: string)
    requires a != [] && IsSubsequence(a, b)
    ensures IsSubsequence(a[1..], b)
  {
    if a[0] == b[0] {
      if a[1..] != [] {
        SkipKeepsSubsequence(a[1..], b);
      }
    } else {
      DropHeadKeepsSubsequence(a, b[1..]);
      if a[1..] != [] {
        SkipKeepsSubsequence(a[1..], b);
      }
    }
  }

  /** Keeping a class is exact on strings already inside it. */
  lemma KeepFixesClassStrings(s: string, inClass: char -> bool)
    ensures Keep(s, inClass) == s <==> forall i :: 0 <= i < |s| ==> inClass(s[i])
  {
    if forall i :: 0 <= i < |s| ==> inClass(s[i]) {
      KeepKeepsClassString(s, inClass);
    }
  }

  lemma {:induction false} KeepKeepsClassString(s: string, inClass: char -> bool)
    requires forall i :: 0 <= i < |s| ==> inClass(s[i])
    ensures Keep(s, inClass) == s
  {
    if s != [] {
      var rest := s[1..];
      assert forall i :: 0 <= i < |rest| ==> rest[i] == s[i + 1];
      KeepKeepsClassString(rest, inClass);
      assert inClass(s[0]);
      assert Keep(s, inClass) == [s[0]] + Keep(rest, inClass);
      assert s == [s[0]] + rest;
    }
  }

  lemma KeepIsIdempotent(s: string, inClass: char -> bool)
    ensures Keep(Keep(s, inClass), inClass) == Keep(s, inClass)
  {
    KeepFixesClassStrings(Keep(s, inClass), inClass);
  }

  // ---------------------------------------------------------------------
  // Validators

  /** `NAME_RE.match(t)`: `^[class]+$`. */
  predicate MatchesNameRe(t: string)
  {
    |t| >= 1 && forall i :: 0 <= i < |t| ==> IsNameChar(t[i])
  }

  /** `_valid_name`. */
  predicate ValidName(s: string)
  {
    s != "" && MatchesNameRe(Strip(s))
  }

  /** `str.isdigit()`, on ASCII digits. */
  predicate AllDigits(s: string)
  {
    forall i :: 0 <= i < |s| ==> IsDigit(s[i])
  }

  /** `_valid_digits`. */
  predicate ValidDigits(s: string)
  {
    s != "" && AllDigits(s)
  }

  /** `_valid_bi`: `re.fullmatch(r"[A-Za-z0-9]{14}", s.strip())`. */
  predicate ValidBi(s: string)
  {
    s != "" && |Strip(s)| == 14 && forall i :: 0 <= i < |Strip(s)| ==> IsAsciiAlnum(Strip(s)[i])
  }

  /** `_valid_phone`: `re.fullmatch(r"\d{9}", s.strip())`. */
  predicate ValidPhone(s: string)
  {
    s != "" && |Strip(s)| == 9 && AllDigits(Strip(s))
  }

  /** Every character of a valid name is a name character. */
  lemma ValidNameHasOnlyNameChars(s: string)
    requires ValidName(s)
    ensures forall c :: c in s ==> IsNameChar(c)
    ensures exists c :: c in s && !IsSpace(c)
  {
    var lead := StripParts(s);
    var t := Strip(s);
    assert s[lead] == t[0];
    forall c | c in s ensures IsNameChar(c) {
      var i :| 0 <= i < |s| && s[i] == c;
      if lead <= i < lead + |t| {
        assert s[i] == t[i - lead];
      }
    }
  }

  /** Name characters with one non-whitespace among them make a valid name. */
  lemma NameCharsMakeValidName(s: string, k: int)
    requires forall c :: c in s ==> IsNameChar(c)
    requires 0 <= k < |s| && !IsSpace(s[k])
    ensures ValidName(s)
  {
    var lead := StripParts(s);
    var t := Strip(s);
    assert lead <= k < lead + |t|;
    forall i | 0 <= i < |t| ensures IsNameChar(t[i]) {
      assert t[i] == s[lead + i];
    }
  }

  /**
   * A name is valid exactly when every character, surrounding whitespace
   * included, is in the name class and at least one is not whitespace.
   */
  lemma ValidNameCharacterisation(s: string)
    ensures ValidName(s) <==>
              (forall c :: c in s ==> IsNameChar(c)) && (exists c :: c in s && !IsSpace(c))
  {
    if ValidName(s) {
      ValidNameHasOnlyNameChars(s);
    }
    if (forall c :: c in s ==> IsNameChar(c)) && (exists c :: c in s && !IsSpace(c)) {
      var c :| c in s && !IsSpace(c);
      var k :| 0 <= k < |s| && s[k] == c;
      NameCharsMakeValidName(s, k);
    }
  }

  /** Every character is whitespace. */
  predicate AllSpace(s: string)
  {
    forall i :: 0 <= i < |s| ==> IsSpace(s[i])
  }

  /** Every character is in the class. */
  predicate AllIn(s: string, inClass: char -> bool)
  {
    forall i :: 0 <= i < |s| ==> inClass(s[i])
  }

  /** `s` is whitespace up to `k`, then `n` characters of the class, then whitespace. */
  predicate PaddedRun(s: string, k: int, n: nat, inClass: char -> bool)
  {
    0 <= k && k + n <= |s| && AllSpace(s[..k]) && AllSpace(s[k + n..]) && AllIn(s[k..k + n], inClass)
  }

  /** Whitespace, then a run starting and ending in non-whitespace, then whitespace: the run is what strip keeps. */
  lemma StripFindsRun(s: string, k: nat, n: nat)
    requires 1 <= n && k + n <= |s|
    requires AllSpace(s[..k]) && AllSpace(s[k + n..])
    requires !IsSpace(s[k]) && !IsSpace(s[k + n - 1])
    ensures Strip(s) == s[k..k + n]
  {
    var lead := StripParts(s);
    var t := Strip(s);
    assert forall i :: 0 <= i < k ==> IsSpace(s[i]) by {
      forall i | 0 <= i < k ensures IsSpace(s[i]) { assert s[..k][i] == s[i]; }
    }
    assert forall i :: k + n <= i < |s| ==> IsSpace(s[i]) by {
      forall i | k + n <= i < |s| ensures IsSpace(s[i]) { assert s[k + n..][i - k - n] == s[i]; }
    }
    // s[k] and s[k + n - 1] are not whitespace, so both lie inside the stripped part
    assert lead <= k < lead + |t|;
    assert lead <= k + n - 1 < lead + |t|;
    assert s[lead] == t[0] && s[lead + |t| - 1] == t[|t| - 1];
    assert lead == k;
    assert lead + |t| == k + n;
  }

  /** The stripped text sits in `s` between two stretches of whitespace. */
  lemma StripIsPaddedRun(s: string, inClass: char -> bool) returns (lead: nat)
    requires AllIn(Strip(s), inClass)
    ensures PaddedRun(s, lead, |Strip(s)|, inClass)
  {
    lead := StripParts(s);
    var n := |Strip(s)|;
    SliceOfSpaces(s, 0, lead);
    SliceOfSpaces(s, lead + n, |s|);
    assert s[0..lead] == s[..lead] && s[lead + n..|s|] == s[lead + n..];
  }

  /** A stretch of whitespace characters is a whitespace slice. */
  lemma SliceOfSpaces(s: string, lo: int, hi: int)
    requires 0 <= lo <= hi <= |s|
    requires forall i :: lo <= i < hi ==> IsSpace(s[i])
    ensures AllSpace(s[lo..hi])
  {
    forall i | 0 <= i < hi - lo ensures IsSpace(s[lo..hi][i]) {
      assert s[lo..hi][i] == s[lo + i];
    }
  }

  /** A padded run of a class without whitespace is what strip keeps. */
  lemma PaddedRunIsStrip(s: string, k: int, n: nat, inClass: char -> bool)
    requires n >= 1 && PaddedRun(s, k, n, inClass)
    requires forall c :: inClass(c) ==> !IsSpace(c)
    ensures Strip(s) == s[k..k + n]
  {
    var run := s[k..k + n];
    assert run[0] == s[k] && run[n - 1] == s[k + n - 1];
    assert inClass(run[0]) && inClass(run[n - 1]);
    StripFindsRun(s, k, n);
  }

  /**
   * `re.fullmatch("<class>{n}", s.strip())` for a class without whitespace
   * holds exactly when `s` is whitespace, `n` class characters, whitespace.
   */
  lemma StrippedRunCharacterisation(s: string, n: nat, inClass: char -> bool)
    requires n >= 1
    requires forall c :: inClass(c) ==> !IsSpace(c)
    ensures (|Strip(s)| == n && AllIn(Strip(s), inClass)) <==> exists k :: PaddedRun(s, k, n, inClass)
  {
    if |Strip(s)| == n && AllIn(Strip(s), inClass) {
      var lead := StripIsPaddedRun(s, inClass);
    }
    if exists k :: PaddedRun(s, k, n, inClass) {
      var k :| PaddedRun(s, k, n, inClass);
      PaddedRunIsStrip(s, k, n, inClass);
    }
  }

  /** `_valid_phone(s)`: `s` is exactly nine digits with optional surrounding whitespace. */
  lemma ValidPhoneIsPaddedNineDigits(s: string)
    ensures ValidPhone(s) <==> exists k :: PaddedRun(s, k, 9, IsDigit)
  {
    StrippedRunCharacterisation(s, 9, IsDigit);
    assert AllDigits(Strip(s)) == AllIn(Strip(s), IsDigit);
  }

  /** `_valid_bi(s)`: `s` is exactly fourteen ASCII letters or digits with optional surrounding whitespace. */
  lemma ValidBiIsPaddedFourteenAlnums(s: string)
    ensures ValidBi(s) <==> exists k :: PaddedRun(s, k, 14, IsAsciiAlnum)
  {
    forall c | IsAsciiAlnum(c) ensures !IsSpace(c) {
      AlnumIsNotSpace(c);
    }
    StrippedRunCharacterisation(s, 14, IsAsciiAlnum);
  }

  /** Digit-only text is exactly the text the digit sanitiser leaves alone. */
  lemma ValidDigitsIsSanitiserFixpoint(s: string)
    ensures ValidDigits(s) <==> s != "" && SanitizeDigitsInput(Some(s)) == s
  {
    KeepFixesClassStrings(s, IsDigit);
  }

  // ---------------------------------------------------------------------
  // Sanitisers and masks

  /** `_sanitize_name_input`. */
  function SanitizeNameInput(s: Option<string>): (r: string)
    ensures |r| <= |OrEmpty(s)|
    ensures forall i :: 0 <= i < |r| ==> IsNameChar(r[i])
    ensures forall c :: c in r <==> c in OrEmpty(s) && IsNameChar(c)
    ensures forall c :: multiset(r)[c] == if IsNameChar(c) then multiset(OrEmpty(s))[c] else 0
    ensures OrEmpty(s) == "" ==> r == ""
  {
    Keep(OrEmpty(s), IsNameChar)
  }

  /** `_sanitize_digits_input`. */
  function SanitizeDigitsInput(s: Option<string>): (r: string)
    ensures |r| <= |OrEmpty(s)|
    ensures AllDigits(r)
    ensures forall c :: c in r <==> c in OrEmpty(s) && IsDigit(c)
    ensures forall c :: multiset(r)[c] == if IsDigit(c) then multiset(OrEmpty(s))[c] else 0
    ensures OrEmpty(s) == "" ==> r == ""
  {
    Keep(OrEmpty(s), IsDigit)
  }

  /** The name sanitiser deletes characters and never adds or reorders any; applying it again changes nothing. */
  lemma SanitizeNameInputIsSubsequenceAndIdempotent(s: Option<string>)
    ensures IsSubsequence(SanitizeNameInput(s), OrEmpty(s))
    ensures SanitizeNameInput(Some(SanitizeNameInput(s))) == SanitizeNameInput(s)
  {
    KeepIsSubsequence(OrEmpty(s), IsNameChar);
    KeepIsIdempotent(OrEmpty(s), IsNameChar);
  }

  /** The digit sanitiser deletes characters and never adds or reorders any; applying it again changes nothing. */
  lemma SanitizeDigitsInputIsSubsequenceAndIdempotent(s: Option<string>)
    ensures IsSubsequence(SanitizeDigitsInput(s), OrEmpty(s))
    ensures SanitizeDigitsInput(Some(SanitizeDigitsInput(s))) == SanitizeDigitsInput(s)
  {
    KeepIsSubsequence(OrEmpty(s), IsDigit);
    KeepIsIdempotent(OrEmpty(s), IsDigit);
  }

  /**
   * A sanitised name passes `_valid_name` exactly when the input had a
   * name character other than whitespace: a letter, an apostrophe or a
   * hyphen.
   */
  lemma SanitizedNameIsValidIff(s: Option<string>)
    ensures ValidName(SanitizeNameInput(s)) <==> HasNameLetter(OrEmpty(s))
  {
    ValidNameCharacterisation(SanitizeNameInput(s));
  }

  /** Some character is a name character other than whitespace. */
  predicate HasNameLetter(s: string)
  {
    exists c :: c in s && IsNameChar(c) && !IsSpace(c)
  }

  /** The phone field's `_sanitize_digits_input(v)[:9]`. */
  function PhoneMask(s: Option<string>): (r: string)
    ensures |r| <= 9 && AllDigits(r)
    ensures |r| <= |SanitizeDigitsInput(s)| && r == SanitizeDigitsInput(s)[..|r|]
    ensures |r| == if |SanitizeDigitsInput(s)| < 9 then |SanitizeDigitsInput(s)| else 9
  {
    Take(SanitizeDigitsInput(s), 9)
  }

  /** The BI field's `re.sub(r"[^A-Za-z0-9]", "", v or "")[:14]`. */
  function BiMask(s: Option<string>): (r: string)
    ensures |r| <= 14
    ensures forall i :: 0 <= i < |r| ==> IsAsciiAlnum(r[i])
    ensures |r| <= |Keep(OrEmpty(s), IsAsciiAlnum)| && r == Keep(OrEmpty(s), IsAsciiAlnum)[..|r|]
    ensures |r| == if |Keep(OrEmpty(s), IsAsciiAlnum)| < 14 then |Keep(OrEmpty(s), IsAsciiAlnum)| else 14
  {
    Take(Keep(OrEmpty(s), IsAsciiAlnum), 14)
  }

  /**
   * Masking the phone field twice is masking it once, and the masked
   * phone is valid exactly when the input held at least nine digits.
   */
  lemma PhoneMaskIsIdempotentAndValidIff(s: Option<string>)
    ensures PhoneMask(Some(PhoneMask(s))) == PhoneMask(s)
    ensures ValidPhone(PhoneMask(s)) <==> |SanitizeDigitsInput(s)| >= 9
  {
    var r := PhoneMask(s);
    MaskedDigitsAreFixed(r);
    MaskedDigitsValidIff(r);
  }

  /** At most nine digits: the phone mask leaves them alone. */
  lemma MaskedDigitsAreFixed(r: string)
    requires |r| <= 9 && AllDigits(r)
    ensures PhoneMask(Some(r)) == r
  {
    KeepFixesClassStrings(r, IsDigit);
    assert SanitizeDigitsInput(Some(r)) == r;
  }

  /** At most nine digits form a valid phone exactly when there are nine. */
  lemma MaskedDigitsValidIff(r: string)
    requires |r| <= 9 && AllDigits(r)
    ensures ValidPhone(r) <==> |r| == 9
  {
    assert forall i :: 0 <= i < |r| ==> !IsSpace(r[i]);
    StripWithoutSpaces(r);
  }

  /**
   * Masking the BI field twice is masking it once, and the masked BI is
   * valid exactly when the input held at least fourteen ASCII letters or
   * digits.
   */
  lemma BiMaskIsIdempotentAndValidIff(s: Option<string>)
    ensures BiMask(Some(BiMask(s))) == BiMask(s)
    ensures ValidBi(BiMask(s)) <==> |Keep(OrEmpty(s), IsAsciiAlnum)| >= 14
  {
    var r := BiMask(s);
    MaskedAlnumsAreFixed(r);
    MaskedAlnumsValidIff(r);
  }

  /** At most fourteen ASCII letters or digits: the BI mask leaves them alone. */
  lemma MaskedAlnumsAreFixed(r: string)
    requires |r| <= 14 && forall i :: 0 <= i < |r| ==> IsAsciiAlnum(r[i])
    ensures BiMask(Some(r)) == r
  {
    KeepFixesClassStrings(r, IsAsciiAlnum);
    assert Keep(OrEmpty(Some(r)), IsAsciiAlnum) == r;
  }

  /** At most fourteen ASCII letters or digits form a valid BI exactly when there are fourteen. */
  lemma MaskedAlnumsValidIff(r: string)
    requires |r| <= 14 && forall i :: 0 <= i < |r| ==> IsAsciiAlnum(r[i])
    ensures ValidBi(r) <==> |r| == 14
  {
    forall i | 0 <= i < |r| ensures !IsSpace(r[i]) {
      AlnumIsNotSpace(r[i]);
    }
    StripWithoutSpaces(r);
  }

  // ---------------------------------------------------------------------
  // The form check chain

  /** The values of the student form's fields. */
  datatype StudentForm = StudentForm(
    nome: Option<string>,
    nomePai: Option<string>,
    nomeMae: Option<string>,
    idade: Option<string>,
    numeroCasa: Option<string>,
    bi: Option<string>,
    telefone: Option<string>)

  const NomeInvalido := "Nome inválido (apenas letras, espaços, - e ')."
  const NomePaiInvalido := "Nome do pai inválido."
  const NomeMaeInvalido := "Nome da mãe inválido."
  const IdadeNaoNumerica := "Idade deve conter apenas números."
  const IdadeForaDoIntervalo := "Idade fora do intervalo válido."
  const NumeroCasaInvalido := "Número da casa deve conter apenas dígitos."
  const BiInvalido := "BI inválido: deve ter exatamente 14 caracteres alfanuméricos."
  const TelefoneInvalido := "Telefone inválido: deve ter exatamente 9 dígitos."

  /** `int(s)` on a string of ASCII digits. */
  function DecimalValue(s: string): (r: nat)
    requires AllDigits(s)
    ensures r < Pow10(|s|)
  {
    if s == [] then 0
    else
      var v := DecimalValue(s[..|s| - 1]);
      assert v * 10 <= (Pow10(|s| - 1) - 1) * 10;
      v * 10 + DigitValue(s[|s| - 1])
  }

  /** `10 ** n`. */
  function Pow10(n: nat): nat
  {
    if n == 0 then 1 else 10 * Pow10(n - 1)
  }

  /**
   * `_validate_all_fields`: the first failing check's message, or
   * `(True, None)`. The parents' names, age, house number, BI and phone
   * are checked only when filled in.
   */
  function ValidateAllFields(f: StudentForm): (r: (bool, Option<string>))
    ensures r.0 <==> r.1.None?
  {
    if !ValidName(OrEmpty(f.nome)) then (false, Some(NomeInvalido))
    else if Filled(f.nomePai) && !ValidName(f.nomePai.value) then (false, Some(NomePaiInvalido))
    else if Filled(f.nomeMae) && !ValidName(f.nomeMae.value) then (false, Some(NomeMaeInvalido))
    else if Filled(f.idade) && !ValidDigits(f.idade.value) then (false, Some(IdadeNaoNumerica))
    else if Filled(f.idade) && (var iv := DecimalValue(f.idade.value); iv < 0 || iv > 120) then
      (false, Some(IdadeForaDoIntervalo))
    else if Filled(f.numeroCasa) && !ValidDigits(f.numeroCasa.value) then (false, Some(NumeroCasaInvalido))
    else if Filled(f.bi) && !ValidBi(f.bi.value) then (false, Some(BiInvalido))
    else if Filled(f.telefone) && !ValidPhone(f.telefone.value) then (false, Some(TelefoneInvalido))
    else (true, None)
  }

  /** One requirement on the form and the message shown when it fails. */
  datatype Check = Check(passes: bool, message: string)

  /** The requirements on a student form, in the order they are reported. */
  function Checks(f: StudentForm): seq<Check>
  {
    [ Check(ValidName(OrEmpty(f.nome)), NomeInvalido),
      Check(!Filled(f.nomePai) || ValidName(f.nomePai.value), NomePaiInvalido),
      Check(!Filled(f.nomeMae) || ValidName(f.nomeMae.value), NomeMaeInvalido),
      Check(!Filled(f.idade) || ValidDigits(f.idade.value), IdadeNaoNumerica),
      Check(!Filled(f.idade) || (ValidDigits(f.idade.value) && DecimalValue(f.idade.value) <= 120),
            IdadeForaDoIntervalo),
      Check(!Filled(f.numeroCasa) || ValidDigits(f.numeroCasa.value), NumeroCasaInvalido),
      Check(!Filled(f.bi) || ValidBi(f.bi.value), BiInvalido),
      Check(!Filled(f.telefone) || ValidPhone(f.telefone.value), TelefoneInvalido) ]
  }

  /** The message of the first check that fails, if any. */
  function FirstFailure(checks: seq<Check>): (r: Option<string>)
    ensures r.None? <==> forall i :: 0 <= i < |checks| ==> checks[i].passes
    ensures r.Some? ==> exists i :: 0 <= i < |checks| && !checks[i].passes && checks[i].message == r.value &&
                                    forall j :: 0 <= j < i ==> checks[j].passes
  {
    if checks == [] then None
    else if !checks[0].passes then Some(checks[0].message)
    else
      var r := FirstFailure(checks[1..]);
      assert forall i :: 1 <= i < |checks| ==> checks[i] == checks[1..][i - 1];
      if r.Some? then
        var i :| 0 <= i < |checks[1..]| && !checks[1..][i].passes && checks[1..][i].message == r.value &&
                 forall j :: 0 <= j < i ==> checks[1..][j].passes;
        assert !checks[i + 1].passes && forall j :: 0 <= j < i + 1 ==> checks[j].passes;
        r
      else r
  }

  /**
   * The chain reports the first failing requirement in the order name,
   * father, mother, age digits, age range, house number, BI, phone, and
   * accepts exactly the forms that meet them all.
   */
  lemma ValidateAllFieldsReportsFirstFailure(f: StudentForm)
    ensures ValidateAllFields(f) == (FirstFailure(Checks(f)).None?, FirstFailure(Checks(f)))
  {
    var cs := Checks(f);
    FirstFailureOfEight(cs);
    assert ValidateAllFields(f).1 == FirstFailure(cs);
  }

  /** `FirstFailure` on eight checks, unrolled. */
  lemma FirstFailureOfEight(cs: seq<Check>)
    requires |cs| == 8
    ensures FirstFailure(cs) ==
      if !cs[0].passes then Some(cs[0].message)
      else if !cs[1].passes then Some(cs[1].message)
      else if !cs[2].passes then Some(cs[2].message)
      else if !cs[3].passes then Some(cs[3].message)
      else if !cs[4].passes then Some(cs[4].message)
      else if !cs[5].passes then Some(cs[5].message)
      else if !cs[6].passes then Some(cs[6].message)
      else if !cs[7].passes then Some(cs[7].message)
      else None
  {
    assert cs[1..][1..][1..][1..][1..][1..][1..][1..] == [];
  }

  /** A form with a valid name and every other field blank is accepted. */
  lemma NameAloneIsAccepted(f: StudentForm)
    requires ValidName(OrEmpty(f.nome))
    requires !Filled(f.nomePai) && !Filled(f.nomeMae) && !Filled(f.idade)
    requires !Filled(f.numeroCasa) && !Filled(f.bi) && !Filled(f.telefone)
    ensures ValidateAllFields(f) == (true, None)
  {
  }

  /** An accepted age is a whole number from 0 to 120. */
  lemma AcceptedAgeIsInRange(f: StudentForm)
    requires ValidateAllFields(f).0 && Filled(f.idade)
    ensures AllDigits(f.idade.value) && DecimalValue(f.idade.value) <= 120
  {
  }
}
