/**
 * The object checker: the integrity gate that decides whether the payload of a
 * blob, tree, commit or tag conforms to the git object grammar before it is
 * trusted. Each check either accepts (`Success(())`) or reports the diagnostic
 * message of the CorruptObjectException it would throw.
 *
 * Payloads are the `char[]` buffers the checker is given, modelled as strings.
 */
module ObjectChecker {
  import opened Wrappers
  import Text

  // ---------------------------------------------------------------------
  // Constants
  // ---------------------------------------------------------------------

  /** Object type codes. */
  const ObjBad: int := -1
  const ObjCommit: int := 1
  const ObjTree: int := 2
  const ObjBlob: int := 3
  const ObjTag: int := 4

  /** Length of a raw object id in a tree entry, and of its hexadecimal spelling in a header. */
  const RawIdLength: nat := 20
  const HexIdLength: nat := 40

  /** The supported tree entry modes (octal 40000, 100644, 100755, 120000 and 160000). */
  const ModeTree: nat := 0x4000
  const ModeRegularFile: nat := 0x81A4
  const ModeExecutableFile: nat := 0x81ED
  const ModeSymlink: nat := 0xA000
  const ModeGitlink: nat := 0xE000

  const Nul: char := 0 as char

  predicate SupportedMode(mode: nat) {
    mode == ModeTree || mode == ModeRegularFile || mode == ModeExecutableFile
    || mode == ModeSymlink || mode == ModeGitlink
  }

  // ---------------------------------------------------------------------
  // Dispatch
  // ---------------------------------------------------------------------

  /** Checks `data` against the grammar of the object type `objType`. */
  function Check(objType: int, data: string): (r: Result<(), string>)
  {
    if objType == ObjCommit then CheckCommit(data)
    else if objType == ObjTag then CheckTag(data)
    else if objType == ObjTree then CheckTree(data)
    else if objType == ObjBlob then CheckBlob(data)
    else Failure("Invalid object type: " + Text.IntToString(objType))
  }

  /** A blob is any sequence of characters at all. */
  function CheckBlob(data: string): (r: Result<(), string>)
    ensures r.Success?
  {
    Success(())
  }

  // ---------------------------------------------------------------------
  // Octal modes
  // ---------------------------------------------------------------------

  predicate IsOctal(c: char) {
    '0' <= c <= '7'
  }

  predicate AllOctal(s: string) {
    forall k :: 0 <= k < |s| ==> IsOctal(s[k])
  }

  /** The value of octal digits, most significant first. */
  function OctalValue(s: string): nat
    requires AllOctal(s)
  {
    if s == [] then 0 else OctalValue(s[..|s| - 1]) * 8 + (s[|s| - 1] as int - '0' as int)
  }

  function OctalDigit(d: nat): (c: char)
    requires d < 8
    ensures IsOctal(c)
  {
    ('0' as int + d) as char
  }

  /** The octal spelling of n, without leading zeros. */
  function OctalText(n: nat): (s: string)
    ensures |s| >= 1 && AllOctal(s)
    ensures (s[0] == '0') <==> n == 0
  {
    if n < 8 then [OctalDigit(n)] else OctalText(n / 8) + [OctalDigit(n % 8)]
  }

  // ---------------------------------------------------------------------
  // Trees
  // ---------------------------------------------------------------------

  /** One tree entry: its mode, its name and its raw 20-character id. */
  datatype TreeEntry = TreeEntry(mode: nat, name: string, id: string)

  /**
   * Reads the mode digits of the entry beginning at data[0], from index i on, `mode`
   * being the value of the digits before i: the value of all the digits and the
   * index of the space that ends them. A '0' is refused while the value is still
   * zero, that is as the first digit.
   */
  function ScanMode(data: string, i: nat, mode: nat): (r: Result<(nat, nat), string>)
    requires i <= |data|
    ensures r.Success? ==> i <= r.value.1 < |data| && data[r.value.1] == ' '
    decreases |data| - i
  {
    if i == |data| then Failure("truncated in mode")
    else if data[i] == ' ' then Success((mode, i))
    else if !IsOctal(data[i]) then Failure("invalid mode character")
    else if mode == 0 && data[i] == '0' then Failure("mode starts with '0'")
    else ScanMode(data, i + 1, mode * 8 + (data[i] as int - '0' as int))
  }

  /** Reads the name beginning at index i: the index of the NUL that ends it. */
  function ScanName(data: string, i: nat): (r: Result<nat, string>)
    requires i <= |data|
    ensures r.Success? ==> i <= r.value < |data| && data[r.value] == Nul
    decreases |data| - i
  {
    if i == |data| then Failure("truncated in name")
    else if data[i] == Nul then Success(i)
    else if data[i] == '/' then Failure("name contains '/'")
    else ScanName(data, i + 1)
  }

  /**
   * The mode and name of the entry at the head of `data`, and the index at which
   * its id begins.
   */
  function EntryHeader(data: string): (r: Result<(nat, string, nat), string>)
    ensures r.Success? ==> 0 < r.value.2 <= |data|
  {
    var (mode, sp) :- ScanMode(data, 0, 0);
    if !SupportedMode(mode) then Failure("invalid mode " + OctalText(mode))
    else
      var nul :- ScanName(data, sp + 1);
      var name := data[sp + 1..nul];
      if name == [] then Failure("zero length name")
      else if name == "." then Failure("invalid name '.'")
      else if name == ".." then Failure("invalid name '..'")
      else Success((mode, name, nul + 1))
  }

  /** The character that implicitly follows a name in tree order: '/' for a tree, none otherwise. */
  function LastPathChar(mode: nat): int {
    if mode == ModeTree then '/' as int else 0
  }

  /**
   * Compares two entry names in tree order: character by character, a tree's name
   * being compared as if followed by '/'. Negative, zero or positive.
   */
  function PathCompare(a: string, aMode: nat, b: string, bMode: nat): int
  {
    if a != [] && b != [] then
      if a[0] != b[0] then a[0] as int - b[0] as int
      else PathCompare(a[1..], aMode, b[1..], bMode)
    else if a != [] then a[0] as int - LastPathChar(bMode)
    else if b != [] then LastPathChar(aMode) - b[0] as int
    else 0
  }

  function Names(es: seq<TreeEntry>): (r: seq<string>)
    ensures |r| == |es|
    ensures forall k :: 0 <= k < |es| ==> r[k] == es[k].name
  {
    if es == [] then [] else Names(es[..|es| - 1]) + [es[|es| - 1].name]
  }

  /**
   * Checks the entries in `data`, `done` being those already read before it:
   * on success, all entries of the tree in order.
   */
  function CheckEntries(data: string, done: seq<TreeEntry>): (r: Result<seq<TreeEntry>, string>)
    decreases |data|
  {
    if data == [] then Success(done)
    else
      var (mode, name, idStart) :- EntryHeader(data);
      if name in Names(done) then Failure("duplicate entry names")
      else if done != [] && PathCompare(done[|done| - 1].name, done[|done| - 1].mode, name, mode) > 0 then
        Failure("incorrectly sorted")
      else if |data| < idStart + RawIdLength then Failure("truncated in object id")
      else
        var e := TreeEntry(mode, name, data[idStart..idStart + RawIdLength]);
        CheckEntries(data[idStart + RawIdLength..], done + [e])
  }

  /** Checks a tree: a run of `mode SP name NUL id` entries in tree order with distinct names. */
  function CheckTree(data: string): (r: Result<(), string>)
  {
    match CheckEntries(data, [])
    case Success(_) => Success(())
    case Failure(m) => Failure(m)
  }

  // ---------------------------------------------------------------------
  // Header lines of commits and tags
  //
  // The checker walks a pointer through the buffer; here each step is given the
  // text from the pointer on and returns the text after what it consumed.
  // ---------------------------------------------------------------------

  /** Where s begins with the keyword w, the text after it. */
  function Match(s: string, w: string): (r: Option<string>)
    ensures r.Some? <==> |w| <= |s| && s[..|w|] == w
    ensures r.Some? ==> s == w + r.value
  {
    if |w| <= |s| && s[..|w|] == w then Some(s[|w|..]) else None
  }

  /** RawParseUtils.nextLF: the text after the first LF, or nothing when there is none. */
  function NextLF(s: string): (r: string)
    ensures |r| <= |s|
    decreases |s|
  {
    if s == [] then []
    else if s[0] == '\n' then s[1..]
    else NextLF(s[1..])
  }

  predicate IsHex(c: char) {
    '0' <= c <= '9' || 'a' <= c <= 'f' || 'A' <= c <= 'F'
  }

  /** Every character in s[i..j] is a hexadecimal digit. */
  predicate HexIn(s: string, i: nat, j: nat)
    requires i <= j <= |s|
    decreases j - i
  {
    i == j || (IsHex(s[i]) && HexIn(s, i + 1, j))
  }

  /** The length of the 40-digit hexadecimal object name at the head of s. */
  function IdLength(s: string): (r: Option<nat>)
    ensures r.Some? ==> r.value == HexIdLength <= |s|
  {
    if HexIdLength <= |s| && HexIn(s, 0, HexIdLength) then Some(HexIdLength) else None
  }

  /** The first index at or after i holding c or an LF, or the end. */
  function Stop(s: string, i: nat, c: char): (r: nat)
    requires i <= |s|
    ensures i <= r <= |s|
    ensures r < |s| ==> s[r] == c || s[r] == '\n'
    ensures forall k :: i <= k < r ==> s[k] != c && s[k] != '\n'
    decreases |s| - i
  {
    if i == |s| || s[i] == c || s[i] == '\n' then i else Stop(s, i + 1, c)
  }

  /** The first index at or after i that is not a decimal digit, or the end. */
  function DigitsEnd(s: string, i: nat): (r: nat)
    requires i <= |s|
    ensures i <= r <= |s|
    ensures r < |s| ==> !Text.IsDigit(s[r])
    ensures forall k :: i <= k < r ==> Text.IsDigit(s[k])
    decreases |s| - i
  {
    if i == |s| || !Text.IsDigit(s[i]) then i else DigitsEnd(s, i + 1)
  }

  /**
   * The length of the person ident `name <email> seconds ±hhmm` at the head of s:
   * the name runs to the first '<', the email from there to the first '>', neither
   * crossing an LF; then a space, one or more digits, a space, a sign and four digits.
   */
  function IdentLength(s: string): (r: Option<nat>)
    ensures r.Some? ==> 0 < r.value <= |s|
  {
    var lt := Stop(s, 0, '<');
    if lt == |s| || s[lt] != '<' then None
    else
      var gt := Stop(s, lt + 1, '>');
      if gt == |s| || s[gt] != '>' then None
      else if gt + 1 == |s| || s[gt + 1] != ' ' then None
      else
        var w := DigitsEnd(s, gt + 2);
        if w == gt + 2 || w == |s| || s[w] != ' ' then None
        else if w + 6 <= |s| && (s[w + 1] == '+' || s[w + 1] == '-') && Text.DigitsIn(s, w + 2, w + 6) then
          Some(w + 6)
        else None
  }

  /**
   * The text after the LF that must directly follow the field at the head of t, whose
   * length (when it is well formed) is n; otherwise the diagnostic `invalid`.
   */
  function LineEnd(t: string, n: Option<nat>, invalid: string): (r: Result<string, string>)
    ensures r.Success? ==> |r.value| < |t|
    ensures r.Failure? ==> r.error == invalid
  {
    match n
    case None => Failure(invalid)
    case Some(k) => if k < |t| && t[k] == '\n' then Success(t[k + 1..]) else Failure(invalid)
  }

  /**
   * A header line `keyword object-name LF` at the head of s: the text after it, or the
   * diagnostic for a missing keyword or a malformed name or line end.
   */
  function ObjectNameHeader(s: string, keyword: string, missing: string, invalid: string)
    : (r: Result<string, string>)
    ensures r.Success? ==> |r.value| < |s|
    ensures r.Failure? ==> r.error == missing || r.error == invalid
  {
    match Match(s, keyword)
    case None => Failure(missing)
    case Some(t) => LineEnd(t, IdLength(t), invalid)
  }

  /**
   * A header line `keyword person-ident LF` at the head of s: the text after it, or the
   * diagnostic for a missing keyword or a malformed ident or line end.
   */
  function PersonHeader(s: string, keyword: string, missing: string, invalid: string)
    : (r: Result<string, string>)
    ensures r.Success? ==> |r.value| < |s|
    ensures r.Failure? ==> r.error == missing || r.error == invalid
  {
    match Match(s, keyword)
    case None => Failure(missing)
    case Some(t) => LineEnd(t, IdentLength(t), invalid)
  }

  // ---------------------------------------------------------------------
  // Commits and tags
  // ---------------------------------------------------------------------

  /** The parent lines at the head of s: the text after the last of them. A `parent\t` line is not one. */
  function Parents(s: string): (r: Result<string, string>)
    ensures r.Success? ==> |r.value| <= |s|
    ensures r.Failure? ==> r.error == "invalid parent"
    decreases |s|
  {
    if Match(s, "parent ").None? then Success(s)
    else
      var t :- ObjectNameHeader(s, "parent ", "invalid parent", "invalid parent");
      Parents(t)
  }

  /** Checks a commit: tree, parents, author and committer headers; the message is not read. */
  function CheckCommit(data: string): (r: Result<(), string>)
  {
    var t :- ObjectNameHeader(data, "tree ", "no tree header", "invalid tree");
    var p :- Parents(t);
    var a :- PersonHeader(p, "author ", "no author", "invalid author");
    var c :- PersonHeader(a, "committer ", "no committer", "invalid committer");
    Success(())
  }

  /**
   * Checks a tag: object, type, tag and tagger headers. The type and tag values run
   * to the next LF, which need not exist; the message is not read.
   */
  function CheckTag(data: string): (r: Result<(), string>)
  {
    var o :- ObjectNameHeader(data, "object ", "no object header", "invalid object");
    match Match(o, "type ")
    case None => Failure("no type header")
    case Some(ty) =>
      match Match(NextLF(ty), "tag ")
      case None => Failure("no tag header")
      case Some(tg) =>
        var g :- PersonHeader(NextLF(tg), "tagger ", "no tagger header", "invalid tagger");
        Success(())
  }
}
