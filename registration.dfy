/**
 * Member registration checks: the field-presence test, the CPF check
 * (is_valid_cpf) and the e-mail shape check (is_valid_email), run in that
 * fixed order by cadastrar_usuario. Everything here is pure string logic.
 */
module Registration {

  predicate IsDigit(c: char) {
    '0' <= c <= '9'
  }

  predicate IsAlnum(c: char) {
    'a' <= c <= 'z' || 'A' <= c <= 'Z' || IsDigit(c)
  }

  /** The class [a-zA-Z0-9_.+-] of the local part. */
  predicate LocalChar(c: char) {
    IsAlnum(c) || c == '_' || c == '.' || c == '+' || c == '-'
  }

  /** The class [a-zA-Z0-9-] of the label right after the '@'. */
  predicate LabelChar(c: char) {
    IsAlnum(c) || c == '-'
  }

  /** The class [a-zA-Z0-9-.] of the tail after the first '.' of the domain. */
  predicate TailChar(c: char) {
    IsAlnum(c) || c == '-' || c == '.'
  }

  predicate AllLocal(s: string) {
    forall k :: 0 <= k < |s| ==> LocalChar(s[k])
  }

  predicate AllLabel(s: string) {
    forall k :: 0 <= k < |s| ==> LabelChar(s[k])
  }

  predicate AllTail(s: string) {
    forall k :: 0 <= k < |s| ==> TailChar(s[k])
  }

  /** re.sub(r'\D', '', cpf): the digits of s, in order. */
  function Digits(s: string): (r: string)
    ensures |r| <= |s|
    ensures forall k :: 0 <= k < |r| ==> IsDigit(r[k])
  {
    if s == [] then []
    else (if IsDigit(s[0]) then [s[0]] else []) + Digits(s[1..])
  }

  /** Stripping distributes over concatenation. */
  lemma {:induction false} DigitsAppend(a: string, b: string)
    ensures Digits(a + b) == Digits(a) + Digits(b)
  {
    if a == [] {
      assert a + b == b;
    } else {
      assert (a + b)[0] == a[0];
      assert (a + b)[1..] == a[1..] + b;
      DigitsAppend(a[1..], b);
    }
  }

  /** Exactly the digits survive: a character is kept iff it is a digit of s. */
  lemma {:induction false} DigitsKeepExactlyDigits(s: string, c: char)
    ensures c in Digits(s) <==> c in s && IsDigit(c)
  {
    if s != [] {
      DigitsKeepExactlyDigits(s[1..], c);
      assert s == [s[0]] + s[1..];
    }
  }

  /** A string made of digits only is left as it is. */
  lemma {:induction false} DigitsOfDigitString(s: string)
    requires forall k :: 0 <= k < |s| ==> IsDigit(s[k])
    ensures Digits(s) == s
  {
    if s != [] {
      DigitsOfDigitString(s[1..]);
    }
  }

  /** str.isdigit(): non-empty and made of digits. */
  predicate IsDigitString(s: string) {
    |s| > 0 && forall k :: 0 <= k < |s| ==> IsDigit(s[k])
  }

  /**
   * is_valid_cpf: strip every non-digit; exactly 11 digits must remain.
   * The isdigit() test after stripping never decides anything: the length
   * alone does.
   */
  predicate IsValidCpf(cpf: string): (ok: bool)
    ensures ok <==> |Digits(cpf)| == 11
  {
    var d := Digits(cpf);
    |d| == 11 && IsDigitString(d)
  }

  /** A CPF written as eleven bare digits is valid. */
  lemma ElevenDigitsValid(cpf: string)
    requires |cpf| == 11 && forall k :: 0 <= k < |cpf| ==> IsDigit(cpf[k])
    ensures IsValidCpf(cpf)
  {
    DigitsOfDigitString(cpf);
  }

  /**
   * The regular expression ^[a-zA-Z0-9_.+-]+@[a-zA-Z0-9-]+\.[a-zA-Z0-9-.]+
   * read as a shape: a non-empty local part, an '@' at i, a non-empty label,
   * a '.' at j, a non-empty tail, and nothing after it.
   */
  ghost predicate EmailShape(s: string) {
    exists i, j ::
      0 < i && i + 1 < j && j + 1 < |s| && s[i] == '@' && s[j] == '.'
      && AllLocal(s[..i]) && AllLabel(s[i + 1..j]) && AllTail(s[j + 1..])
  }

  /** The first index of c in s at or after from, or |s| when there is none. */
  function IndexFrom(s: string, c: char, from: nat): (r: nat)
    requires from <= |s|
    ensures from <= r <= |s|
    ensures r < |s| ==> s[r] == c
    ensures forall k :: from <= k < r ==> s[k] != c
    decreases |s| - from
  {
    if from == |s| then |s|
    else if s[from] == c then from
    else IndexFrom(s, c, from + 1)
  }

  /**
   * How the regular-expression engine decides the match: the local part
   * cannot contain '@' and the label cannot contain '.', so the '@' is the
   * first one and the '.' is the first one after it.
   */
  predicate MatchesEmail(s: string) {
    var i := IndexFrom(s, '@', 0);
    i < |s| &&
    var j := IndexFrom(s, '.', i + 1);
    0 < i && i + 1 < j && j + 1 < |s|
    && AllLocal(s[..i]) && AllLabel(s[i + 1..j]) && AllTail(s[j + 1..])
  }

  /** The scan stops at the first c from from on. */
  lemma IndexFromFirst(s: string, c: char, from: nat, i: nat)
    requires from <= i < |s| && s[i] == c
    requires forall k :: from <= k < i ==> s[k] != c
    ensures IndexFrom(s, c, from) == i
  {
  }

  /** A shape with its '@' at i and its '.' at j is what the scan finds. */
  lemma ShapeIsMatch(s: string, i: nat, j: nat)
    requires 0 < i && i + 1 < j && j + 1 < |s| && s[i] == '@' && s[j] == '.'
    requires AllLocal(s[..i]) && AllLabel(s[i + 1..j]) && AllTail(s[j + 1..])
    ensures IndexFrom(s, '@', 0) == i && IndexFrom(s, '.', i + 1) == j
    ensures MatchesEmail(s)
  {
    forall k | 0 <= k < i ensures s[k] != '@' {
      assert LocalChar(s[..i][k]);
    }
    IndexFromFirst(s, '@', 0, i);
    forall k | i + 1 <= k < j ensures s[k] != '.' {
      assert LabelChar(s[i + 1..j][k - (i + 1)]);
    }
    IndexFromFirst(s, '.', i + 1, j);
  }

  /** The first-occurrence scan accepts exactly the strings of the regex shape. */
  lemma MatchesEmailIsShape(s: string)
    ensures MatchesEmail(s) <==> EmailShape(s)
  {
    if EmailShape(s) {
      var i, j :| 0 < i && i + 1 < j && j + 1 < |s| && s[i] == '@' && s[j] == '.'
        && AllLocal(s[..i]) && AllLabel(s[i + 1..j]) && AllTail(s[j + 1..]);
      ShapeIsMatch(s, i, j);
    }
    if MatchesEmail(s) {
      var i := IndexFrom(s, '@', 0);
      var j := IndexFrom(s, '.', i + 1);
      assert s[i] == '@' && s[j] == '.';
    }
  }

  /**
   * is_valid_email: re.match with a final '$', which also matches just
   * before one trailing newline. A valid address always contains an '@'.
   */
  predicate IsValidEmail(s: string): (ok: bool)
    ensures ok ==> '@' in s
  {
    MatchesEmail(s) || (|s| > 0 && s[|s| - 1] == '\n' && MatchesEmail(s[..|s| - 1]))
  }

  /** An address is valid iff it has the regex shape, alone or followed by one newline. */
  lemma IsValidEmailShape(s: string)
    ensures IsValidEmail(s) <==>
      EmailShape(s) || (|s| > 0 && s[|s| - 1] == '\n' && EmailShape(s[..|s| - 1]))
  {
    MatchesEmailIsShape(s);
    if |s| > 0 {
      MatchesEmailIsShape(s[..|s| - 1]);
    }
  }

  /** An address without an '@' is never valid. */
  lemma {:induction false} NoAtIsInvalid(s: string)
    requires forall k :: 0 <= k < |s| ==> s[k] != '@'
    ensures !IsValidEmail(s)
  {
    assert IndexFrom(s, '@', 0) == |s|;
    if |s| > 0 {
      var t := s[..|s| - 1];
      assert forall k :: 0 <= k < |t| ==> t[k] != '@';
      assert IndexFrom(t, '@', 0) == |t|;
    }
  }

  datatype Verdict = MissingFields | InvalidCpf | InvalidEmail | Accepted

  /**
   * cadastrar_usuario's checks, in order: every field present, then the
   * CPF, then the e-mail.
   */
  function CheckRegistration(name: string, cpf: string, email: string, phone: string): (v: Verdict)
    ensures v == MissingFields <==> name == [] || cpf == [] || email == [] || phone == []
    ensures v == InvalidCpf <==>
      name != [] && cpf != [] && email != [] && phone != [] && !IsValidCpf(cpf)
    ensures v == InvalidEmail <==>
      name != [] && cpf != [] && email != [] && phone != [] && IsValidCpf(cpf) && !IsValidEmail(email)
    ensures v == Accepted <==>
      name != [] && phone != [] && IsValidCpf(cpf) && IsValidEmail(email)
  {
    if name == [] || cpf == [] || email == [] || phone == [] then MissingFields
    else if !IsValidCpf(cpf) then InvalidCpf
    else if !IsValidEmail(email) then InvalidEmail
    else Accepted
  }

  /** A lone character is stripped iff it is not a digit. */
  lemma DigitsOfChar(x: char)
    ensures Digits([x]) == if IsDigit(x) then [x] else []
  {
    assert [x][1..] == [];
  }

  /**
   * The punctuated form ddd.ddd.ddd-ee: stripping the separators leaves the
   * three groups followed by the digits of the last part.
   */
  lemma FormattedCpfDigits(a: string, b: string, c: string, e: string, x: char, y: char, z: char)
    requires forall k :: 0 <= k < |a| ==> IsDigit(a[k])
    requires forall k :: 0 <= k < |b| ==> IsDigit(b[k])
    requires forall k :: 0 <= k < |c| ==> IsDigit(c[k])
    requires !IsDigit(x) && !IsDigit(y) && !IsDigit(z)
    ensures Digits(a + [x] + b + [y] + c + [z] + e) == a + b + c + Digits(e)
  {
    var s1 := a + [x];
    assert Digits(s1) == a by {
      DigitsAppend(a, [x]);
      DigitsOfDigitString(a);
      DigitsOfChar(x);
    }
    var s2 := s1 + b;
    assert Digits(s2) == a + b by {
      DigitsAppend(s1, b);
      DigitsOfDigitString(b);
    }
    var s3 := s2 + [y];
    assert Digits(s3) == a + b by {
      DigitsAppend(s2, [y]);
      DigitsOfChar(y);
    }
    var s4 := s3 + c;
    assert Digits(s4) == a + b + c by {
      DigitsAppend(s3, c);
      DigitsOfDigitString(c);
    }
    var s5 := s4 + [z];
    assert Digits(s5) == a + b + c by {
      DigitsAppend(s4, [z]);
      DigitsOfChar(z);
    }
    DigitsAppend(s5, e);
  }

  /**
   * A 14-character CPF punctuated like ddd.ddd.ddd-ee: stripping keeps the
   * three groups of three and the digits among the last two characters.
   */
  lemma PunctuatedCpfDigits(s: string)
    requires |s| == 14 && !IsDigit(s[3]) && !IsDigit(s[7]) && !IsDigit(s[11])
    requires forall k :: 0 <= k < 11 && k != 3 && k != 7 ==> IsDigit(s[k])
    ensures Digits(s) == s[..3] + s[4..7] + s[8..11] + Digits(s[12..])
  {
    assert s == s[..3] + [s[3]] + s[4..7] + [s[7]] + s[8..11] + [s[11]] + s[12..];
    FormattedCpfDigits(s[..3], s[4..7], s[8..11], s[12..], s[3], s[7], s[11]);
  }

  /** Eleven digits punctuated as ddd.ddd.ddd-dd form a valid CPF. */
  lemma PunctuatedCpfValid(s: string)
    requires |s| == 14 && !IsDigit(s[3]) && !IsDigit(s[7]) && !IsDigit(s[11])
    requires forall k :: 0 <= k < 14 && k != 3 && k != 7 && k != 11 ==> IsDigit(s[k])
    ensures IsValidCpf(s)
  {
    PunctuatedCpfDigits(s);
    DigitsOfDigitString(s[12..]);
  }

  /** ddd.ddd.ddd-d followed by a non-digit keeps only ten digits: not a CPF. */
  lemma PunctuatedCpfShortInvalid(s: string)
    requires |s| == 14 && !IsDigit(s[3]) && !IsDigit(s[7]) && !IsDigit(s[11]) && !IsDigit(s[13])
    requires forall k :: 0 <= k < 13 && k != 3 && k != 7 && k != 11 ==> IsDigit(s[k])
    ensures !IsValidCpf(s)
  {
    PunctuatedCpfDigits(s);
    assert s[12..] == [s[12]] + [s[13]];
    DigitsAppend([s[12]], [s[13]]);
    DigitsOfChar(s[12]);
    DigitsOfChar(s[13]);
  }

  /** The well-formed CPF of the main registration scenario. */
  lemma ValidCpfExample()
    ensures IsValidCpf("123.456.789-09")
  {
    PunctuatedCpfValid("123.456.789-09");
  }

  /** The well-formed CPF of the invalid e-mail scenario. */
  lemma OtherValidCpfExample()
    ensures IsValidCpf("111.222.333-44")
  {
    PunctuatedCpfValid("111.222.333-44");
  }

  /** "111.222.333-4g" keeps only ten digits once the 'g' is stripped. */
  lemma InvalidCpfExample()
    ensures !IsValidCpf("111.222.333-4g")
  {
    PunctuatedCpfShortInvalid("111.222.333-4g");
  }

  /** Any local part, '@', label, '.' and tail over the regex's classes form a valid address. */
  lemma AssembledEmailIsValid(user: string, host: string, tail: string)
    requires |user| > 0 && AllLocal(user)
    requires |host| > 0 && AllLabel(host)
    requires |tail| > 0 && AllTail(tail)
    ensures IsValidEmail(user + "@" + host + "." + tail)
  {
    var s := user + "@" + host + "." + tail;
    var i, j := |user|, |user| + 1 + |host|;
    assert s[..i] == user;
    assert s[i + 1..j] == host;
    assert s[j + 1..] == tail;
    ShapeIsMatch(s, i, j);
  }

  /** An address with its '@' at i and its '.' at j, every other character in its part's class, is valid. */
  lemma ValidEmailAt(s: string, i: nat, j: nat)
    requires 0 < i && i + 1 < j && j + 1 < |s| && s[i] == '@' && s[j] == '.'
    requires forall k :: 0 <= k < i ==> LocalChar(s[k])
    requires forall k :: i < k < j ==> LabelChar(s[k])
    requires forall k :: j < k < |s| ==> TailChar(s[k])
    ensures IsValidEmail(s)
  {
    assert AllLocal(s[..i]);
    var host, tail := s[i + 1..j], s[j + 1..];
    forall k | 0 <= k < |host| ensures LabelChar(host[k]) {
      assert host[k] == s[i + 1 + k];
    }
    forall k | 0 <= k < |tail| ensures TailChar(tail[k]) {
      assert tail[k] == s[j + 1 + k];
    }
    ShapeIsMatch(s, i, j);
  }

  /** The address of the valid registration scenarios. */
  lemma ValidEmailExample()
    ensures IsValidEmail("joao.silva@example.com")
  {
    ValidEmailAt("joao.silva@example.com", 10, 18);
  }

  /** The address without '@' of the invalid e-mail scenario. */
  lemma InvalidEmailExample()
    ensures !IsValidEmail("joao.silvaexample.com")
  {
    NoAtIsInvalid("joao.silvaexample.com");
  }

  /** The four registration scenarios: the first failing check decides the verdict. */
  lemma RegistrationScenarios()
    ensures CheckRegistration("João Silva", "123.456.789-09", "joao.silva@example.com", "(11) 91234-5678") == Accepted
    ensures CheckRegistration("João Silva", "123.456.789-09", "", "(11) 91234-5678") == MissingFields
    ensures CheckRegistration("João Silva", "111.222.333-4g", "joao.silva@example.com", "(11) 91234-5678") == InvalidCpf
    ensures CheckRegistration("João Silva", "111.222.333-44", "joao.silvaexample.com", "(11) 91234-5678") == InvalidEmail
    ensures CheckRegistration("João Silva", "111.222.333-4g", "joao.silvaexample.com", "(11) 91234-5678") == InvalidCpf
  {
    ValidCpfExample();
    OtherValidCpfExample();
    InvalidCpfExample();
    ValidEmailExample();
    InvalidEmailExample();
  }
}
