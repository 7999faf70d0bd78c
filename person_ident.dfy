/** The identity stamped on commits, tags and reflog lines: a name, an e-mail address,
    a time in milliseconds since the epoch and a time-zone offset in minutes, read from and
    written as the external form "name <email> seconds +HHMM". */
module PersonIdents {
  import opened Wrappers
  import opened Text

  /** PersonIdent: every field is set once, by a constructor. The record constructor
      (name, email, when, tz) stores its four arguments as they are. */
  datatype PersonIdent = PersonIdent(name: string, emailAddress: string, when: Int64, tzOffset: Int32)
  {
    /** Offset of the time zone from UTC, in minutes. */
    function TimeZoneOffset(): Int32 {
      tzOffset
    }
  }

  /** Why the string constructor gave up: the ArgumentException it raises itself, or one of
      the .NET failures (a bad number, an index past the end) lumped together. */
  datatype ParseError = Malformed(message: string) | FormatFailure

  const NoLessThan: string := "Malformed PersonIdent string (no < was found): "
  const NoGreaterThan: string := "Malformed PersonIdent string (no > was found): "

  // ---------------------------------------------------------------------
  // The string constructor
  // ---------------------------------------------------------------------

  /** The constructor as written: a time zone with negative hours still has its minutes added. */
  function Parse(str: string): Result<PersonIdent, ParseError> {
    Scan(str, false)
  }

  /** The constructor with the sign of the hour field applied to the minutes too, and a '>'
      at the very end of the string treated like any other string without a time stamp. */
  function ParseCorrected(str: string): Result<PersonIdent, ParseError> {
    Scan(str, true)
  }

  /** Both readings of the string constructor; `corrected` selects the fixed one. */
  function Scan(str: string, corrected: bool): Result<PersonIdent, ParseError> {
    var lt := IndexOf(str, '<', 0);
    if lt == -1 then Failure(Malformed(NoLessThan + str))
    else
      var gt := IndexOf(str, '>', lt);
      if gt == -1 then Failure(Malformed(NoGreaterThan + str))
      else AfterBrackets(str, lt, gt, corrected)
  }

  /** Everything after the brackets have been found at lt and gt: the name before lt and the
      e-mail address between them, each trimmed, and the time stamp after gt. */
  function AfterBrackets(str: string, lt: nat, gt: nat, corrected: bool): Result<PersonIdent, ParseError>
    requires lt < gt < |str|
  {
    var name := Bounds(str, 0, lt, false);
    var email := Bounds(str, lt + 1, gt, false);
    var ident := (w: Int64, tz: Int32) => PersonIdent(str[name.0..name.1], str[email.0..email.1], w, tz);
    if gt + 2 > |str| then
      // String.IndexOf with a start index past the end throws
      if corrected then Success(ident(0, -1)) else Failure(FormatFailure)
    else
      var sp := IndexOf(str, ' ', gt + 2);
      if sp == -1 then Success(ident(0, -1))
      else
        match Stamp(str, gt, sp, corrected)
        case None => Failure(FormatFailure)
        case Some(stamp) => Success(ident(stamp.0, stamp.1))
  }

  /** The time stamp between gt and the end: the seconds in [gt + 1, sp), the signed hour in
      the three characters after sp and the minutes in everything after those. Every .NET
      exception on the way (a substring past the end, an empty hour field, a bad or
      overflowing number) is None. */
  function Stamp(str: string, gt: nat, sp: nat, corrected: bool): Option<(Int64, Int32)>
    requires gt < sp < |str|
  {
    if sp + 4 > |str| then None
    else
      var zone := Bounds(str, sp + 1, sp + 4, false);
      if zone.0 == zone.1 then None
      else
        var hours := if str[zone.0] == '+' then ParseInt32In(str, zone.0 + 1, zone.1) else ParseInt32In(str, zone.0, zone.1);
        var minsField := Bounds(str, sp + 4, |str|, false);
        var mins := ParseInt32In(str, minsField.0, minsField.1);
        var secsField := Bounds(str, gt + 1, sp, false);
        var secs := ParseInt64In(str, secsField.0, secsField.1);
        if hours.None? || mins.None? || secs.None? then None
        else
          var negative := corrected && str[zone.0] == '-';
          Some((WrapInt64(secs.value * 1000), WrapInt32(ZoneMinutes(hours.value, mins.value, negative))))
  }

  /** Minutes east of UTC from the parsed hour and minute fields; the corrected reading
      subtracts the minutes when the hour field carries a minus sign. */
  function ZoneMinutes(hours: int, mins: int, negative: bool): int {
    if negative then hours * 60 - mins else hours * 60 + mins
  }

  // ---------------------------------------------------------------------
  // The external form
  // ---------------------------------------------------------------------

  /** ToExternalString: "name <email> seconds zone", the seconds being When / 1000 truncated
      toward zero. */
  function ToExternalString(p: PersonIdent): string {
    p.name + " <" + p.emailAddress + "> " + IntToString(Quot(p.when, 1000)) + " " + FormatTimezone(p.tzOffset)
  }

  /** appendTimezone: '-' for a negative offset (which is then negated, with 32-bit
      wrap-around), '+' otherwise, then the hours and the minutes of the offset. */
  function FormatTimezone(tz: Int32): string {
    var offset: int := if tz < 0 then WrapInt32(-(tz as int)) else tz;
    [if tz < 0 then '-' else '+'] + Padded(Quot(offset, 60)) + Padded(Rem(offset, 60))
  }

  /** A number appended after a '0' when it is below 10. */
  function Padded(n: int): string {
    (if n < 10 then "0" else "") + IntToString(n)
  }

  // ---------------------------------------------------------------------
  // Equality, hashing and the copy constructor
  // ---------------------------------------------------------------------

  /** Equals(object): false for null or a non-PersonIdent (None), otherwise name, e-mail
      address and time must agree; the time zone is not compared. */
  predicate Equals(p: PersonIdent, o: Option<PersonIdent>) {
    o.Some? && p.name == o.value.name && p.emailAddress == o.value.emailAddress && p.when == o.value.when
  }

  /** GetHashCode: the hash of the e-mail address (String.GetHashCode, a parameter here) xor
      the low 32 bits of When. */
  function GetHashCode(p: PersonIdent, stringHash: string -> Int32): Int32 {
    Xor32(stringHash(p.emailAddress), WrapInt32(p.when))
  }

  /** The constructor PersonIdent(pi, git_time, offset_in_minutes): pi's name and e-mail
      address with a new time and time zone. */
  function WithTime(pi: PersonIdent, gitTime: Int64, offsetInMinutes: Int32): (r: PersonIdent)
    ensures r.name == pi.name && r.emailAddress == pi.emailAddress && r.when == gitTime
    ensures Equals(r, Some(pi)) <==> gitTime == pi.when
    ensures r.TimeZoneOffset() == offsetInMinutes
  {
    PersonIdent(pi.name, pi.emailAddress, gitTime, offsetInMinutes)
  }
}
