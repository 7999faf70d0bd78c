/** What the PersonIdent string constructor and its serialisation promise. */
module PersonIdentLaws {
  import opened Wrappers
  import opened Text
  import opened PersonIdents

  // ---------------------------------------------------------------------
  // The two ArgumentExceptions
  // ---------------------------------------------------------------------

  /** Some '<' in str is followed, later on, by a '>'. */
  predicate HasCloseAfterOpen(str: string) {
    exists i, j :: 0 <= i < j < |str| && str[i] == '<' && str[j] == '>'
  }

  /** The string constructor throws its own ArgumentException exactly when there is no '<',
      or no '>' after the first '<'; every other failure is a .NET one. */
  lemma {:induction false} MalformedExactly(str: string, corrected: bool)
    ensures Scan(str, corrected) == Failure(Malformed(NoLessThan + str)) <==> '<' !in str
    ensures Scan(str, corrected) == Failure(Malformed(NoGreaterThan + str)) <==> '<' in str && !HasCloseAfterOpen(str)
    ensures (Scan(str, corrected).Failure? && Scan(str, corrected).error.Malformed?) <==> !HasCloseAfterOpen(str)
  {
    assert NoLessThan + str != NoGreaterThan + str by {
      assert (NoLessThan + str)[33] != (NoGreaterThan + str)[33];
    }
    var lt := IndexOf(str, '<', 0);
    if lt != -1 {
      var gt := IndexOf(str, '>', lt);
      if gt != -1 {
        assert str[lt] == '<' && str[gt] == '>';
      }
    }
  }

  // ---------------------------------------------------------------------
  // Name and e-mail address
  // ---------------------------------------------------------------------

  /** Once both brackets are found, Scan goes on to AfterBrackets. */
  lemma ScanAt(str: string, corrected: bool, lt: nat, gt: nat)
    requires IndexOf(str, '<', 0) == lt && IndexOf(str, '>', lt) == gt
    ensures lt < gt < |str|
    ensures Scan(str, corrected) == AfterBrackets(str, lt, gt, corrected)
  {
  }

  /** A successful parse has for Name the trimmed text before the first '<' and for
      EmailAddress the trimmed text between it and the next '>': neither has white space
      at its ends, the name holds no '<' and the address no '>'. */
  lemma ParsedFields(str: string, corrected: bool, lt: nat, gt: nat)
    requires IndexOf(str, '<', 0) == lt && IndexOf(str, '>', lt) == gt
    ensures lt < gt < |str|
    ensures Scan(str, corrected).Failure? ==> Scan(str, corrected).error == FormatFailure
    ensures Scan(str, corrected).Success? ==>
      var p := Scan(str, corrected).value;
      && p.name == Trim(str[..lt]) && IsTrimmed(p.name) && '<' !in p.name
      && p.emailAddress == Trim(str[lt + 1..gt]) && IsTrimmed(p.emailAddress) && '>' !in p.emailAddress
  {
    ParsedShape(str, corrected, lt, gt);
    TrimOfRange(str, 0, lt);
    TrimOfRange(str, lt + 1, gt);
    assert str[..lt] == str[0..lt];
    NotInRange(str, 0, lt, '<');
    NotInTrim(str[..lt], '<');
    NotInRange(str, lt + 1, gt, '>');
    NotInTrim(str[lt + 1..gt], '>');
  }

  /** Name and address of a successful parse are the trimmed ranges before and after lt. */
  lemma ParsedShape(str: string, corrected: bool, lt: nat, gt: nat)
    requires IndexOf(str, '<', 0) == lt && IndexOf(str, '>', lt) == gt
    ensures lt < gt < |str|
    ensures Scan(str, corrected).Failure? ==> Scan(str, corrected).error == FormatFailure
    ensures Scan(str, corrected).Success? ==>
      var name, email := Bounds(str, 0, lt, false), Bounds(str, lt + 1, gt, false);
      Scan(str, corrected).value.name == str[name.0..name.1] && Scan(str, corrected).value.emailAddress == str[email.0..email.1]
  {
    ScanAt(str, corrected, lt, gt);
  }

  // ---------------------------------------------------------------------
  // No time stamp
  // ---------------------------------------------------------------------

  /** With no space at or after gt + 2 the parse still succeeds: When is 0 and the offset -1. */
  lemma NoTimeStamp(str: string, corrected: bool, lt: nat, gt: nat)
    requires IndexOf(str, '<', 0) == lt && IndexOf(str, '>', lt) == gt
    requires gt + 2 <= |str| && IndexOf(str, ' ', gt + 2) == -1
    ensures Scan(str, corrected) == Success(PersonIdent(Trim(str[..lt]), Trim(str[lt + 1..gt]), 0, -1))
    ensures Scan(str, corrected).value.TimeZoneOffset() == -1
  {
    ParsedFields(str, corrected, lt, gt);
  }

  /** When '>' is the last character, String.IndexOf is asked to start past the end and
      throws: the parse as written fails, the corrected one falls back like NoTimeStamp. */
  lemma CloseAtEnd(str: string, lt: nat, gt: nat)
    requires IndexOf(str, '<', 0) == lt && IndexOf(str, '>', lt) == gt
    requires gt + 1 == |str|
    ensures Parse(str) == Failure(FormatFailure)
    ensures ParseCorrected(str) == Success(PersonIdent(Trim(str[..lt]), Trim(str[lt + 1..gt]), 0, -1))
  {
    ParsedFields(str, true, lt, gt);
    ScanAt(str, false, lt, gt);
  }

  /** An ident that ends at its '>': the parse as written fails, the corrected one gives
      the trimmed name and address with When 0 and offset -1. */
  lemma EndsAtClose(nameText: string, emailText: string)
    requires '<' !in nameText && '>' !in emailText
    ensures Parse(nameText + "<" + emailText + ">") == Failure(FormatFailure)
    ensures ParseCorrected(nameText + "<" + emailText + ">") ==
      Success(PersonIdent(Trim(nameText), Trim(emailText), 0, -1))
  {
    var str := nameText + "<" + emailText + ">";
    BracketsAt(str, nameText, emailText);
    CloseAtEnd(str, |nameText|, |nameText| + 1 + |emailText|);
  }

  /** Where IndexOf finds the brackets of nameText + "<" + emailText + ">", and what lies
      before and between them. */
  lemma BracketsAt(str: string, nameText: string, emailText: string)
    requires '<' !in nameText && '>' !in emailText
    requires str == nameText + "<" + emailText + ">"
    ensures var lt, gt := |nameText|, |nameText| + 1 + |emailText|;
      && |str| == gt + 1 && IndexOf(str, '<', 0) == lt && IndexOf(str, '>', lt) == gt
      && str[..lt] == nameText && str[lt + 1..gt] == emailText
  {
    var lt := |nameText|;
    var gt := lt + 1 + |emailText|;
    assert Holds(str, 0, str);
    SplitHolds(str, 0, nameText + "<" + emailText, ">");
    SplitHolds(str, 0, nameText + "<", emailText);
    SplitHolds(str, 0, nameText, "<");
    BracketsHeld(str, nameText, emailText);
  }

  /** BracketsAt for any string holding the pieces where nameText + "<" + emailText + ">"
      has them. */
  lemma BracketsHeld(str: string, nameText: string, emailText: string)
    requires '<' !in nameText && '>' !in emailText
    requires var lt, gt := |nameText|, |nameText| + 1 + |emailText|;
      && |str| == gt + 1 && Holds(str, 0, nameText) && Holds(str, lt, "<")
      && Holds(str, lt + 1, emailText) && Holds(str, gt, ">")
    ensures var lt, gt := |nameText|, |nameText| + 1 + |emailText|;
      && IndexOf(str, '<', 0) == lt && IndexOf(str, '>', lt) == gt
      && str[..lt] == nameText && str[lt + 1..gt] == emailText
  {
    var lt := |nameText|;
    var gt := lt + 1 + |emailText|;
    assert str[lt + 0] == "<"[0] && str[gt + 0] == ">"[0];
    forall k | 0 <= k < lt ensures str[k] != '<' {
      assert str[k] == nameText[k];
    }
    forall k | lt < k < gt ensures str[k] != '>' {
      assert str[k] == emailText[k - (lt + 1)];
    }
    IndexOfAt(str, '<', 0, lt);
    IndexOfAt(str, '>', lt, gt);
    HoldsSlice(str, 0, nameText);
    HoldsSlice(str, lt + 1, emailText);
    assert str[..lt] == str[0..lt];
  }

  // ---------------------------------------------------------------------
  // A well-formed time stamp
  // ---------------------------------------------------------------------

  /** The offset a zone "sign HH MM" parses to. */
  function ZoneValue(sign: char, h: nat, m: nat, corrected: bool): int {
    ZoneMinutes(if sign == '-' then -(h as int) else h, m, corrected && sign == '-')
  }

  predicate NoWhite(w: string) {
    forall m :: 0 <= m < |w| ==> !IsWhiteSpace(w[m])
  }

  /** Two digits, the first padding a one-digit number with '0'. */
  lemma PaddedDigits(n: int)
    requires 0 <= n < 100
    ensures |Padded(n)| == 2 && AllDigits(Padded(n)) && DigitsValue(Padded(n)) == n
  {
    var s := Padded(n);
    if n < 10 {
      assert s == ['0', DigitChar(n)];
    } else {
      DigitsValueOfNatToString(n);
    }
  }

  /** The seconds as ToExternalString writes them read back as the same number. */
  lemma SecondsText(secs: int)
    ensures |IntToString(secs)| >= 1 && NoWhite(IntToString(secs))
    ensures ParseIntegerIn(IntToString(secs), 0, |IntToString(secs)|) == Some(secs)
  {
    var w := IntToString(secs);
    IntToStringNoWhite(secs);
    assert Holds(w, 0, w);
    ParseIntegerOfIntToString(w, 0, |w|, secs);
  }

  /** A zone written as a sign and two two-digit fields: the hour field read with and
      without its sign, and the minute field. */
  lemma ZoneText(sign: char, h: nat, m: nat)
    requires (sign == '+' || sign == '-') && h < 100 && m < 100
    ensures var z := [sign] + Padded(h) + Padded(m);
      && |z| == 5 && z[0] == sign && NoWhite(z)
      && ParseIntegerIn(z, 1, 3) == Some(h)
      && ParseIntegerIn(z, 0, 3) == Some(if sign == '-' then -(h as int) else h)
      && ParseIntegerIn(z, 3, 5) == Some(m)
  {
    PaddedDigits(h);
    PaddedDigits(m);
    var p, q := Padded(h), Padded(m);
    var z := [sign] + p + q;
    assert z[1] == p[0] && z[2] == p[1] && z[3] == q[0] && z[4] == q[1];
    ZoneDigits(z, sign, p, q);
  }

  /** A two-digit field of a zone, at k, read without a sign. */
  lemma ZoneField(z: string, k: nat, p: string)
    requires k + 2 <= |z| && |p| == 2 && AllDigits(p) && z[k] == p[0] && z[k + 1] == p[1]
    ensures ParseIntegerIn(z, k, k + 2) == Some(DigitsValue(p))
  {
    assert "" + p == p;
    ParseDigitsIn(z, k, k + 2, "", p);
  }

  /** The hour field of a zone read with its sign. */
  lemma ZoneSignedHour(z: string, sign: char, p: string)
    requires (sign == '+' || sign == '-') && |z| == 5 && z[0] == sign
    requires |p| == 2 && AllDigits(p) && z[1] == p[0] && z[2] == p[1]
    ensures ParseIntegerIn(z, 0, 3) == Some(if sign == '-' then -(DigitsValue(p) as int) else DigitsValue(p))
  {
    var s := if sign == '-' then "-" else "+";
    assert Holds(z, 0, s + p);
    ParseDigitsIn(z, 0, 3, s, p);
  }

  /** The parse facts of ZoneText, on the characters of the zone. */
  lemma ZoneDigits(z: string, sign: char, p: string, q: string)
    requires (sign == '+' || sign == '-') && |z| == 5 && z[0] == sign
    requires |p| == 2 && AllDigits(p) && |q| == 2 && AllDigits(q)
    requires z[1] == p[0] && z[2] == p[1] && z[3] == q[0] && z[4] == q[1]
    ensures NoWhite(z)
    ensures ParseIntegerIn(z, 1, 3) == Some(DigitsValue(p))
    ensures ParseIntegerIn(z, 0, 3) == Some(if sign == '-' then -(DigitsValue(p) as int) else DigitsValue(p))
    ensures ParseIntegerIn(z, 3, 5) == Some(DigitsValue(q))
  {
    ZoneField(z, 1, p);
    ZoneField(z, 3, q);
    ZoneSignedHour(z, sign, p);
  }

  /** White space, then the seconds text w, up to the space at sp. */
  lemma SecondsAt(str: string, gt: nat, a: nat, sp: nat, w: string)
    requires gt < a && sp == a + |w| && sp <= |str| && |w| >= 1
    requires Holds(str, a, w) && NoWhite(w)
    requires forall k :: gt + 1 <= k < a ==> IsWhiteSpace(str[k])
    ensures Bounds(str, gt + 1, sp, false) == (a, sp)
    ensures ParseIntegerIn(str, a, sp) == ParseIntegerIn(w, 0, |w|)
  {
    assert forall m :: 0 <= m < |w| ==> w[m] == str[m + a];
    assert str[a] == w[0] && str[sp - 1] == w[|w| - 1];
    assert !IsWhiteSpace(w[0]) && !IsWhiteSpace(w[|w| - 1]);
    BoundsAround(str, gt + 1, a, sp, sp, false);
    ParseIntegerInShift(w, 0, |w|, str, a);
  }

  /** The five characters of a zone text z after the space at sp, then only white space. */
  lemma ZoneAt(str: string, sp: nat, z: string)
    requires sp + 6 <= |str| && |z| == 5 && Holds(str, sp + 1, z) && NoWhite(z)
    requires forall k :: sp + 6 <= k < |str| ==> IsWhiteSpace(str[k])
    ensures str[sp + 1] == z[0]
    ensures Bounds(str, sp + 1, sp + 4, false) == (sp + 1, sp + 4)
    ensures Bounds(str, sp + 4, |str|, false) == (sp + 4, sp + 6)
    ensures ParseIntegerIn(str, sp + 2, sp + 4) == ParseIntegerIn(z, 1, 3)
    ensures ParseIntegerIn(str, sp + 1, sp + 4) == ParseIntegerIn(z, 0, 3)
    ensures ParseIntegerIn(str, sp + 4, sp + 6) == ParseIntegerIn(z, 3, 5)
  {
    assert forall m :: 0 <= m < 5 ==> z[m] == str[m + (sp + 1)];
    assert !IsWhiteSpace(z[0]) && !IsWhiteSpace(z[2]) && !IsWhiteSpace(z[3]) && !IsWhiteSpace(z[4]);
    HourAt(str, sp, z);
    MinuteAt(str, sp, z);
  }

  lemma HourAt(str: string, sp: nat, z: string)
    requires sp + 6 <= |str| && |z| == 5
    requires forall m :: 0 <= m < 5 ==> z[m] == str[m + (sp + 1)]
    requires !IsWhiteSpace(z[0]) && !IsWhiteSpace(z[2])
    ensures Bounds(str, sp + 1, sp + 4, false) == (sp + 1, sp + 4)
    ensures ParseIntegerIn(str, sp + 2, sp + 4) == ParseIntegerIn(z, 1, 3)
    ensures ParseIntegerIn(str, sp + 1, sp + 4) == ParseIntegerIn(z, 0, 3)
  {
    BoundsAround(str, sp + 1, sp + 1, sp + 4, sp + 4, false);
    ParseIntegerInShift(z, 1, 3, str, sp + 1);
    ParseIntegerInShift(z, 0, 3, str, sp + 1);
  }

  lemma MinuteAt(str: string, sp: nat, z: string)
    requires sp + 6 <= |str| && |z| == 5
    requires forall m :: 0 <= m < 5 ==> z[m] == str[m + (sp + 1)]
    requires !IsWhiteSpace(z[3]) && !IsWhiteSpace(z[4])
    requires forall k :: sp + 6 <= k < |str| ==> IsWhiteSpace(str[k])
    ensures Bounds(str, sp + 4, |str|, false) == (sp + 4, sp + 6)
    ensures ParseIntegerIn(str, sp + 4, sp + 6) == ParseIntegerIn(z, 3, 5)
  {
    BoundsAround(str, sp + 4, sp + 4, sp + 6, |str|, false);
    ParseIntegerInShift(z, 3, 5, str, sp + 1);
  }

  /** Stamp, given what its three fields hold. */
  lemma StampFromFields(str: string, gt: nat, a: nat, sp: nat, secs: int, sign: char, h: nat, m: nat, corrected: bool)
    requires gt < a <= sp && sp + 6 <= |str|
    requires (sign == '+' || sign == '-') && str[sp + 1] == sign && h < 100 && m < 100
    requires Bounds(str, sp + 1, sp + 4, false) == (sp + 1, sp + 4)
    requires sign == '+' ==> ParseIntegerIn(str, sp + 2, sp + 4) == Some(h)
    requires sign == '-' ==> ParseIntegerIn(str, sp + 1, sp + 4) == Some(-(h as int))
    requires Bounds(str, sp + 4, |str|, false) == (sp + 4, sp + 6)
    requires ParseIntegerIn(str, sp + 4, sp + 6) == Some(m)
    requires Bounds(str, gt + 1, sp, false) == (a, sp)
    requires ParseIntegerIn(str, a, sp) == Some(secs)
    requires MinInt64 <= secs * 1000 <= MaxInt64
    ensures Stamp(str, gt, sp, corrected) == Some((secs * 1000, WrapInt32(ZoneValue(sign, h, m, corrected))))
  {
  }

  /** The time stamp at its usual place after '>': white space, the seconds text w, a space,
      the zone text z, then nothing but white space. */
  lemma StampAt(str: string, gt: nat, a: nat, w: string, z: string, secs: int, sign: char, h: nat, m: nat, corrected: bool)
    requires gt < a && a + |w| + 6 <= |str| && |w| >= 1 && |z| == 5
    requires Holds(str, a, w) && NoWhite(w) && Holds(str, a + |w| + 1, z) && NoWhite(z)
    requires forall k :: gt + 1 <= k < a ==> IsWhiteSpace(str[k])
    requires forall k :: a + |w| + 6 <= k < |str| ==> IsWhiteSpace(str[k])
    requires ParseIntegerIn(w, 0, |w|) == Some(secs) && MinInt64 <= secs * 1000 <= MaxInt64
    requires (sign == '+' || sign == '-') && z[0] == sign && h < 100 && m < 100
    requires ParseIntegerIn(z, 1, 3) == Some(h)
    requires ParseIntegerIn(z, 0, 3) == Some(if sign == '-' then -(h as int) else h)
    requires ParseIntegerIn(z, 3, 5) == Some(m)
    ensures Stamp(str, gt, a + |w|, corrected) == Some((secs * 1000, WrapInt32(ZoneValue(sign, h, m, corrected))))
  {
    var sp := a + |w|;
    SecondsAt(str, gt, a, sp, w);
    ZoneAt(str, sp, z);
    StampFromFields(str, gt, a, sp, secs, sign, h, m, corrected);
  }

  /** Where IndexOf finds the three delimiters of a time-stamped ident. */
  lemma DelimitersAt(str: string, lt: nat, gt: nat, sp: nat)
    requires lt < gt && gt + 2 <= sp < |str|
    requires str[lt] == '<' && str[gt] == '>' && str[sp] == ' '
    requires forall k :: 0 <= k < lt ==> str[k] != '<'
    requires forall k :: lt < k < gt ==> str[k] != '>'
    requires forall k :: gt + 2 <= k < sp ==> str[k] != ' '
    ensures IndexOf(str, '<', 0) == lt && IndexOf(str, '>', lt) == gt && IndexOf(str, ' ', gt + 2) == sp
  {
    IndexOfAt(str, '<', 0, lt);
    IndexOfAt(str, '>', lt, gt);
    IndexOfAt(str, ' ', gt + 2, sp);
  }

  /** With the delimiters found and the time stamp read, the ident is the trimmed name and
      address with that time stamp. */
  lemma ScanStamped(str: string, lt: nat, gt: nat, sp: nat, stamp: (Int64, Int32), corrected: bool)
    requires IndexOf(str, '<', 0) == lt && IndexOf(str, '>', lt) == gt
    requires gt + 2 <= sp < |str| && IndexOf(str, ' ', gt + 2) == sp
    requires Stamp(str, gt, sp, corrected) == Some(stamp)
    ensures Scan(str, corrected) == Success(PersonIdent(Trim(str[..lt]), Trim(str[lt + 1..gt]), stamp.0, stamp.1))
  {
    ScanAt(str, corrected, lt, gt);
    TrimOfRange(str, 0, lt);
    TrimOfRange(str, lt + 1, gt);
    assert str[..lt] == str[0..lt];
  }

  /** A time-stamped ident laid out at the index level: the first '<' at lt, the next '>' at
      gt, the seconds text w after at most one character of white space, a space, the zone
      text z, and white space to the end. */
  lemma ParseAt(str: string, lt: nat, gt: nat, a: nat, w: string, z: string,
                secs: int, sign: char, h: nat, m: nat, corrected: bool)
    requires lt < gt < a <= gt + 2 && |w| >= 1 && |z| == 5 && a + |w| + 6 <= |str|
    requires str[lt] == '<' && forall k :: 0 <= k < lt ==> str[k] != '<'
    requires str[gt] == '>' && forall k :: lt < k < gt ==> str[k] != '>'
    requires forall k :: gt + 1 <= k < a ==> IsWhiteSpace(str[k])
    requires Holds(str, a, w) && NoWhite(w) && str[a + |w|] == ' '
    requires Holds(str, a + |w| + 1, z) && NoWhite(z)
    requires forall k :: a + |w| + 6 <= k < |str| ==> IsWhiteSpace(str[k])
    requires ParseIntegerIn(w, 0, |w|) == Some(secs) && MinInt64 <= secs * 1000 <= MaxInt64
    requires (sign == '+' || sign == '-') && z[0] == sign && h < 100 && m < 100
    requires ParseIntegerIn(z, 1, 3) == Some(h)
    requires ParseIntegerIn(z, 0, 3) == Some(if sign == '-' then -(h as int) else h)
    requires ParseIntegerIn(z, 3, 5) == Some(m)
    ensures Scan(str, corrected) ==
      Success(PersonIdent(Trim(str[..lt]), Trim(str[lt + 1..gt]), secs * 1000, WrapInt32(ZoneValue(sign, h, m, corrected))))
  {
    var sp := a + |w|;
    forall k | gt + 2 <= k < sp ensures str[k] != ' ' {
      assert str[k] == w[k - a] && !IsWhiteSpace(w[k - a]);
    }
    DelimitersAt(str, lt, gt, sp);
    StampAt(str, gt, a, w, z, secs, sign, h, m, corrected);
    ScanStamped(str, lt, gt, sp, (secs * 1000, WrapInt32(ZoneValue(sign, h, m, corrected))), corrected);
  }

  /** The text of a time-stamped ident, piece by piece. */
  function Layout(nameText: string, emailText: string, pre: string, w: string, z: string, trail: string): string {
    nameText + "<" + emailText + ">" + pre + w + " " + z + trail
  }

  /** Where each piece of a Layout sits. */
  lemma LayoutPieces(nameText: string, emailText: string, pre: string, w: string, z: string, trail: string)
    ensures var str := Layout(nameText, emailText, pre, w, z, trail);
      var lt := |nameText|;
      var gt := lt + 1 + |emailText|;
      var sp := gt + 1 + |pre| + |w|;
      && |str| == sp + 1 + |z| + |trail|
      && Holds(str, 0, nameText) && Holds(str, lt, "<") && Holds(str, lt + 1, emailText) && Holds(str, gt, ">")
      && Holds(str, gt + 1, pre) && Holds(str, gt + 1 + |pre|, w) && Holds(str, sp, " ")
      && Holds(str, sp + 1, z) && Holds(str, sp + 1 + |z|, trail)
  {
    var str := Layout(nameText, emailText, pre, w, z, trail);
    assert Holds(str, 0, str);
    SplitHolds(str, 0, nameText + "<" + emailText + ">" + pre + w + " " + z, trail);
    SplitHolds(str, 0, nameText + "<" + emailText + ">" + pre + w + " ", z);
    SplitHolds(str, 0, nameText + "<" + emailText + ">" + pre + w, " ");
    SplitHolds(str, 0, nameText + "<" + emailText + ">" + pre, w);
    SplitHolds(str, 0, nameText + "<" + emailText + ">", pre);
    SplitHolds(str, 0, nameText + "<" + emailText, ">");
    SplitHolds(str, 0, nameText + "<", emailText);
    SplitHolds(str, 0, nameText, "<");
  }

  /** A time-stamped ident, with no space or one space between '>' and the seconds, parses
      to the trimmed name and address, the seconds times 1000 and the offset of its zone. */
  lemma ParseLayout(nameText: string, emailText: string, pre: string, secs: int,
                    sign: char, h: nat, m: nat, trail: string, corrected: bool)
    requires '<' !in nameText && '>' !in emailText && (pre == "" || pre == " ")
    requires (sign == '+' || sign == '-') && h < 100 && m < 100
    requires forall k :: 0 <= k < |trail| ==> IsWhiteSpace(trail[k])
    requires MinInt64 <= secs * 1000 <= MaxInt64
    ensures Scan(Layout(nameText, emailText, pre, IntToString(secs), [sign] + Padded(h) + Padded(m), trail), corrected)
         == Success(PersonIdent(Trim(nameText), Trim(emailText), secs * 1000, WrapInt32(ZoneValue(sign, h, m, corrected))))
  {
    var w, z := IntToString(secs), [sign] + Padded(h) + Padded(m);
    SecondsText(secs);
    ZoneText(sign, h, m);
    LayoutText(nameText, emailText, pre, w, z, trail, secs, sign, h, m, corrected);
  }

  /** ParseLayout for any seconds text w and zone text z that read as secs, h and m. */
  lemma LayoutText(nameText: string, emailText: string, pre: string, w: string, z: string, trail: string,
                   secs: int, sign: char, h: nat, m: nat, corrected: bool)
    requires '<' !in nameText && '>' !in emailText && (pre == "" || pre == " ")
    requires forall k :: 0 <= k < |trail| ==> IsWhiteSpace(trail[k])
    requires |w| >= 1 && NoWhite(w) && ParseIntegerIn(w, 0, |w|) == Some(secs) && MinInt64 <= secs * 1000 <= MaxInt64
    requires |z| == 5 && NoWhite(z) && (sign == '+' || sign == '-') && z[0] == sign && h < 100 && m < 100
    requires ParseIntegerIn(z, 1, 3) == Some(h)
    requires ParseIntegerIn(z, 0, 3) == Some(if sign == '-' then -(h as int) else h)
    requires ParseIntegerIn(z, 3, 5) == Some(m)
    ensures Scan(Layout(nameText, emailText, pre, w, z, trail), corrected)
         == Success(PersonIdent(Trim(nameText), Trim(emailText), secs * 1000, WrapInt32(ZoneValue(sign, h, m, corrected))))
  {
    LayoutPieces(nameText, emailText, pre, w, z, trail);
    PiecesText(Layout(nameText, emailText, pre, w, z, trail), nameText, emailText, pre, w, z, trail, secs, sign, h, m, corrected);
  }

  /** LayoutText for any string holding the pieces where a Layout has them. */
  lemma PiecesText(str: string, nameText: string, emailText: string, pre: string, w: string, z: string, trail: string,
                   secs: int, sign: char, h: nat, m: nat, corrected: bool)
    requires '<' !in nameText && '>' !in emailText && (pre == "" || pre == " ")
    requires forall k :: 0 <= k < |trail| ==> IsWhiteSpace(trail[k])
    requires |w| >= 1 && NoWhite(w) && ParseIntegerIn(w, 0, |w|) == Some(secs) && MinInt64 <= secs * 1000 <= MaxInt64
    requires |z| == 5 && NoWhite(z) && (sign == '+' || sign == '-') && z[0] == sign && h < 100 && m < 100
    requires ParseIntegerIn(z, 1, 3) == Some(h)
    requires ParseIntegerIn(z, 0, 3) == Some(if sign == '-' then -(h as int) else h)
    requires ParseIntegerIn(z, 3, 5) == Some(m)
    requires var lt := |nameText|;
      var gt := lt + 1 + |emailText|;
      var sp := gt + 1 + |pre| + |w|;
      && |str| == sp + 1 + |z| + |trail|
      && Holds(str, 0, nameText) && Holds(str, lt, "<") && Holds(str, lt + 1, emailText) && Holds(str, gt, ">")
      && Holds(str, gt + 1, pre) && Holds(str, gt + 1 + |pre|, w) && Holds(str, sp, " ")
      && Holds(str, sp + 1, z) && Holds(str, sp + 1 + |z|, trail)
    ensures Scan(str, corrected)
         == Success(PersonIdent(Trim(nameText), Trim(emailText), secs * 1000, WrapInt32(ZoneValue(sign, h, m, corrected))))
  {
    var lt := |nameText|;
    var gt := lt + 1 + |emailText|;
    var a := gt + 1 + |pre|;
    PiecesIndex(str, nameText, emailText, pre, w, z, trail);
    HoldsSlice(str, 0, nameText);
    HoldsSlice(str, lt + 1, emailText);
    assert str[..lt] == nameText by {
      assert str[..lt] == str[0..lt];
    }
    assert str[lt + 1..gt] == emailText;
    ParseAt(str, lt, gt, a, w, z, secs, sign, h, m, corrected);
  }

  /** The pieces of a Layout, character by character, as ParseAt wants them. */
  lemma PiecesIndex(str: string, nameText: string, emailText: string, pre: string, w: string, z: string, trail: string)
    requires '<' !in nameText && '>' !in emailText
    requires forall k :: 0 <= k < |pre| ==> IsWhiteSpace(pre[k])
    requires forall k :: 0 <= k < |trail| ==> IsWhiteSpace(trail[k])
    requires var lt := |nameText|;
      var gt := lt + 1 + |emailText|;
      var sp := gt + 1 + |pre| + |w|;
      && |str| == sp + 1 + |z| + |trail|
      && Holds(str, 0, nameText) && Holds(str, lt, "<") && Holds(str, lt + 1, emailText) && Holds(str, gt, ">")
      && Holds(str, gt + 1, pre) && Holds(str, sp, " ") && Holds(str, sp + 1 + |z|, trail)
    ensures var lt := |nameText|;
      var gt := lt + 1 + |emailText|;
      var a := gt + 1 + |pre|;
      && str[lt] == '<' && (forall k :: 0 <= k < lt ==> str[k] != '<')
      && str[gt] == '>' && (forall k :: lt < k < gt ==> str[k] != '>')
      && (forall k :: gt + 1 <= k < a ==> IsWhiteSpace(str[k]))
      && str[a + |w|] == ' '
      && (forall k :: a + |w| + 1 + |z| <= k < |str| ==> IsWhiteSpace(str[k]))
  {
    var lt := |nameText|;
    var gt := lt + 1 + |emailText|;
    var a := gt + 1 + |pre|;
    assert str[lt + 0] == "<"[0] && str[gt + 0] == ">"[0] && str[a + |w| + 0] == " "[0];
    forall k | 0 <= k < lt ensures str[k] != '<' {
      assert str[k] == nameText[k];
    }
    forall k | lt < k < gt ensures str[k] != '>' {
      assert str[k] == emailText[k - (lt + 1)];
    }
    forall k | gt + 1 <= k < a ensures IsWhiteSpace(str[k]) {
      assert str[k] == pre[k - (gt + 1)];
    }
    forall k | a + |w| + 1 + |z| <= k < |str| ensures IsWhiteSpace(str[k]) {
      assert str[k] == trail[k - (a + |w| + 1 + |z|)];
    }
  }

  // ---------------------------------------------------------------------
  // ToExternalString read back
  // ---------------------------------------------------------------------

  /** The offset without its sign. */
  function Magnitude(tz: Int32): nat {
    if tz < 0 then -(tz as int) else tz as int
  }

  /** appendTimezone writes the sign, then the hours and the minutes of the magnitude of the
      offset, two digits each, for any offset of less than 100 hours. */
  lemma TimezoneText(tz: Int32)
    requires -6000 < tz < 6000
    ensures var h, m := Magnitude(tz) / 60, Magnitude(tz) % 60;
      && h < 100 && h * 60 + m == Magnitude(tz)
      && FormatTimezone(tz) == [if tz < 0 then '-' else '+'] + Padded(h) + Padded(m)
  {
    var n := Magnitude(tz);
    DivBounds(n, 60);
    assert Quot(n, 60) == n / 60;
    assert Rem(n, 60) == n % 60;
  }

  /** The external form is a Layout with one space before '<' and one before the seconds. */
  lemma ExternalIsLayout(p: PersonIdent)
    ensures ToExternalString(p) ==
      Layout(p.name + " ", p.emailAddress, " ", IntToString(Quot(p.when, 1000)), FormatTimezone(p.tzOffset), "")
  {
  }

  /** The external form of an ident with a trimmed name free of '<', a trimmed address free
      of '>', a whole number of seconds and an offset under 100 hours parses back to the
      same name, address and time; the offset is read back as ZoneValue says. */
  lemma ExternalParsed(p: PersonIdent, corrected: bool)
    requires IsTrimmed(p.name) && '<' !in p.name && IsTrimmed(p.emailAddress) && '>' !in p.emailAddress
    requires p.when % 1000 == 0 && -6000 < p.tzOffset < 6000
    ensures var h, m := Magnitude(p.tzOffset) / 60, Magnitude(p.tzOffset) % 60;
      Scan(ToExternalString(p), corrected) ==
        Success(PersonIdent(p.name, p.emailAddress, p.when,
                            WrapInt32(ZoneValue(if p.tzOffset < 0 then '-' else '+', h, m, corrected))))
  {
    var tz := p.tzOffset;
    var h, m := Magnitude(tz) / 60, Magnitude(tz) % 60;
    var secs := Quot(p.when, 1000);
    QuotExact(p.when, 1000);
    TimezoneText(tz);
    ExternalIsLayout(p);
    assert '<' !in p.name + " ";
    TrimSurrounded([], p.name, " ");
    assert [] + p.name + " " == p.name + " ";
    TrimOfTrimmed(p.emailAddress);
    ParseLayout(p.name + " ", p.emailAddress, " ", secs, if tz < 0 then '-' else '+', h, m, "", corrected);
  }

  /** ZoneValue gives back the offset a zone was written from: always in the corrected
      reading, and in the reading as written only for offsets east of UTC or a whole number
      of hours. */
  lemma ZoneValueOfOffset(tz: Int32, corrected: bool)
    requires -6000 < tz < 6000
    ensures var v := ZoneValue(if tz < 0 then '-' else '+', Magnitude(tz) / 60, Magnitude(tz) % 60, corrected);
      v == tz <==> corrected || tz >= 0 || tz % 60 == 0
  {
    var n: int := Magnitude(tz);
    DivBounds(Magnitude(tz), 60);
    if tz < 0 && !corrected && n % 60 != 0 {
      assert tz % 60 != 0 by {
        assert tz == -(n / 60) * 60 - n % 60;
        assert tz == (-(n / 60) - 1) * 60 + (60 - n % 60);
      }
    }
    if tz < 0 && tz % 60 == 0 {
      assert n == -(tz / 60) * 60;
    }
  }

  /** Reading back the external form gives the same ident, for any offset east of UTC or a
      whole number of hours west of it. */
  lemma RoundTrip(p: PersonIdent)
    requires IsTrimmed(p.name) && '<' !in p.name && IsTrimmed(p.emailAddress) && '>' !in p.emailAddress
    requires p.when % 1000 == 0 && -6000 < p.tzOffset < 6000
    requires p.tzOffset >= 0 || p.tzOffset % 60 == 0
    ensures Parse(ToExternalString(p)) == Success(p)
  {
    ExternalParsed(p, false);
    ZoneValueOfOffset(p.tzOffset, false);
  }

  /** With the sign applied to the minutes, every offset under 100 hours reads back. */
  lemma RoundTripCorrected(p: PersonIdent)
    requires IsTrimmed(p.name) && '<' !in p.name && IsTrimmed(p.emailAddress) && '>' !in p.emailAddress
    requires p.when % 1000 == 0 && -6000 < p.tzOffset < 6000
    ensures ParseCorrected(ToExternalString(p)) == Success(p)
  {
    ExternalParsed(p, true);
    ZoneValueOfOffset(p.tzOffset, true);
  }

  // ---------------------------------------------------------------------
  // Equals and GetHashCode
  // ---------------------------------------------------------------------

  /** Equals is an equivalence on idents, and nothing equals null. */
  lemma EqualsIsEquivalence(p: PersonIdent, q: PersonIdent, r: PersonIdent)
    ensures !Equals(p, None)
    ensures Equals(p, Some(p))
    ensures Equals(p, Some(q)) ==> Equals(q, Some(p))
    ensures Equals(p, Some(q)) && Equals(q, Some(r)) ==> Equals(p, Some(r))
  {
  }

  /** Two idents are equal exactly when they differ at most in their time zone. */
  lemma EqualsUpToZone(p: PersonIdent, q: PersonIdent)
    ensures Equals(p, Some(q)) <==> p.(tzOffset := q.tzOffset) == q
  {
  }

  /** The hash is the same for idents that are equal, whatever the string hash. */
  lemma HashAgreesWithEquals(p: PersonIdent, q: PersonIdent, stringHash: string -> Int32)
    requires Equals(p, Some(q))
    ensures GetHashCode(p, stringHash) == GetHashCode(q, stringHash)
  {
  }

  /** Xor-ing the hash with the low 32 bits of When gives back the e-mail address's hash. */
  lemma HashRecoversEmailHash(p: PersonIdent, stringHash: string -> Int32)
    ensures Xor32(GetHashCode(p, stringHash), WrapInt32(p.when)) == stringHash(p.emailAddress)
  {
    XorTwice(stringHash(p.emailAddress), WrapInt32(p.when));
  }

}
