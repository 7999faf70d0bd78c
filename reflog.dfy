/** The reflog reader: each line of a log file records one update of a ref as
    "old-id SP new-id SP ident TAB comment LF"; the reader walks the file backward, last
    line first. The file is a parameter (None when it does not exist), and so is the ident
    parser RawParseUtils.parsePersonIdentOnly. */
module Reflog {
  import opened Wrappers
  import opened Text
  import opened PersonIdents

  type Byte = b: int | 0 <= b < 256

  const Tab: Byte := 9
  const LF: Byte := 10
  const Space: Byte := 32

  // ---------------------------------------------------------------------
  // Object ids in hexadecimal
  // ---------------------------------------------------------------------

  /** The twenty bytes of a SHA-1 name. */
  datatype ObjectId = ObjectId(bytes: seq<Byte>)

  /** The value of a hexadecimal digit, either case. */
  function HexDigit(c: Byte): (r: Option<nat>)
    ensures r.Some? ==> r.value < 16
  {
    if 48 <= c <= 57 then Some(c - 48)
    else if 97 <= c <= 102 then Some(c - 87)
    else if 65 <= c <= 70 then Some(c - 55)
    else None
  }

  /** The bytes spelled by the hexadecimal digits raw[i..j], two digits a byte. */
  function HexBytes(raw: seq<Byte>, i: nat, j: nat): (r: Option<seq<Byte>>)
    requires i <= j <= |raw| && (j - i) % 2 == 0
    ensures r.Some? ==> 2 * |r.value| == j - i
    decreases j - i
  {
    if i == j then Some([])
    else
      var hi, lo := HexDigit(raw[i]), HexDigit(raw[i + 1]);
      if hi.None? || lo.None? then None
      else
        match HexBytes(raw, i + 2, j)
        case None => None
        case Some(rest) => Some([hi.value * 16 + lo.value] + rest)
  }

  /** ObjectId.FromString(raw, pos): the id named by the 40 hexadecimal digits at pos; None
      where the source throws (fewer than 40 bytes left, or a byte that is not a digit). */
  function ObjectIdAt(raw: seq<Byte>, pos: nat): (r: Option<ObjectId>)
    ensures r.Some? ==> pos + 40 <= |raw| && |r.value.bytes| == 20
  {
    if pos + 40 > |raw| then None
    else
      match HexBytes(raw, pos, pos + 40)
      case None => None
      case Some(bs) => Some(ObjectId(bs))
  }

  function HexChar(d: nat): (c: Byte)
    requires d < 16
    ensures HexDigit(c) == Some(d)
  {
    if d < 10 then 48 + d else 87 + d
  }

  /** ObjectId.Name: two lower-case hexadecimal digits per byte. */
  function HexText(bs: seq<Byte>): (s: seq<Byte>)
    ensures |s| == 2 * |bs|
  {
    if bs == [] then [] else [HexChar(bs[0] / 16), HexChar(bs[0] % 16)] + HexText(bs[1..])
  }

  /** Reading back the hexadecimal text of some bytes gives those bytes. */
  lemma {:induction false} HexBytesOfText(raw: seq<Byte>, i: nat, bs: seq<Byte>)
    requires i + 2 * |bs| <= |raw|
    requires forall k :: 0 <= k < 2 * |bs| ==> raw[i + k] == HexText(bs)[k]
    ensures HexBytes(raw, i, i + 2 * |bs|) == Some(bs)
    decreases |bs|
  {
    if bs != [] {
      var t := HexText(bs);
      assert raw[i] == t[0] && raw[i + 1] == t[1];
      forall k | 0 <= k < 2 * |bs[1..]| ensures raw[i + 2 + k] == HexText(bs[1..])[k] {
        assert raw[i + (k + 2)] == t[k + 2];
      }
      HexBytesOfText(raw, i + 2, bs[1..]);
      assert [bs[0] / 16 * 16 + bs[0] % 16] + bs[1..] == bs;
    }
  }

  // ---------------------------------------------------------------------
  // The RawParseUtils scanners the reader calls
  // ---------------------------------------------------------------------

  /** RawParseUtils.next / nextLF as the reader's -1 checks (ReflogReader.cs:66-73) read them:
      the index just past the first c at or after ptr, or -1 when there is none. The -1 for an
      absent c is an assumption taken from those checks, not a known fact about the helpers. */
  function Next(raw: seq<Byte>, ptr: nat, c: Byte): (r: int)
    requires ptr <= |raw|
    ensures r == -1 || (ptr < r <= |raw| && raw[r - 1] == c)
    decreases |raw| - ptr
  {
    if ptr == |raw| then -1
    else if raw[ptr] == c then ptr + 1
    else Next(raw, ptr + 1, c)
  }

  /** Nothing before the c that Next finds is a c. */
  lemma {:induction false} NextFirst(raw: seq<Byte>, ptr: nat, c: Byte)
    requires ptr <= |raw|
    ensures var r := Next(raw, ptr, c);
      forall k :: ptr <= k < (if r == -1 then |raw| else r - 1) ==> raw[k] != c
    decreases |raw| - ptr
  {
    if ptr < |raw| && raw[ptr] != c {
      NextFirst(raw, ptr + 1, c);
    }
  }

  /** Next finds the first c at or after ptr. */
  lemma {:induction false} NextAt(raw: seq<Byte>, ptr: nat, c: Byte, k: nat)
    requires ptr <= k < |raw| && raw[k] == c
    requires forall m :: ptr <= m < k ==> raw[m] != c
    ensures Next(raw, ptr, c) == k + 1
    decreases k - ptr
  {
    if ptr < k {
      NextAt(raw, ptr + 1, c, k);
    }
  }

  /** The backward scan of RawParseUtils.prev: from p down, the index just before the first
      LF met, or -1 when the scan runs off the start. */
  function Prev(b: seq<Byte>, p: int): (r: int)
    requires p < |b|
    ensures -1 <= r && (p >= 0 ==> r < p) && (p < 0 ==> r == -1)
    decreases p + 1
  {
    if p < 0 then -1
    else if b[p] == LF then p - 1
    else Prev(b, p - 1)
  }

  /** RawParseUtils.prevLF(b, ptr): the backward scan, started one byte earlier when ptr is the
      length of b. */
  function PrevLF(b: seq<Byte>, ptr: int): int
    requires -1 <= ptr <= |b|
  {
    Prev(b, if ptr == |b| then ptr - 1 else ptr)
  }

  /** Prev stops just before an LF, and no LF lies between that one and p. */
  lemma {:induction false} PrevFound(b: seq<Byte>, p: int)
    requires p < |b|
    ensures Prev(b, p) >= 0 ==> b[Prev(b, p) + 1] == LF
    ensures forall k :: Prev(b, p) + 2 <= k <= p ==> b[k] != LF
    decreases p + 1
  {
    if p >= 0 && b[p] != LF {
      PrevFound(b, p - 1);
    }
  }

  // ---------------------------------------------------------------------
  // Entries
  // ---------------------------------------------------------------------

  /** ReflogReader.Entry: fixed at construction; the getters getOldId, getNewId, getWho and
      getComment are the fields. The comment is kept as the bytes RawParseUtils.decode turns
      into a string; who is None where parsePersonIdentOnly returns null. */
  datatype Entry = Entry(oldId: ObjectId, newId: ObjectId, who: Option<PersonIdent>, comment: seq<Byte>)

  /** Why the Entry constructor threw: its own ArgumentException, an id that does not parse,
      or an index past the end of the buffer. */
  datatype EntryError = NotAnEntry | InvalidObjectId | IndexOutOfRange

  /** What the Entry constructor makes of the line at pos, by position: the old id at pos, a
      space, the new id at pos + 41, a space, the ident at pos + 82, and the comment from the
      first TAB after that up to the next LF. */
  function EntryAt(raw: seq<Byte>, pos: nat, parseWho: (seq<Byte>, nat) -> Option<PersonIdent>): Result<Entry, EntryError> {
    var oldId := ObjectIdAt(raw, pos);
    if oldId.None? then Failure(InvalidObjectId)
    else if pos + 40 >= |raw| then Failure(IndexOutOfRange)
    else if raw[pos + 40] != Space then Failure(NotAnEntry)
    else
      var newId := ObjectIdAt(raw, pos + 41);
      if newId.None? then Failure(InvalidObjectId)
      else if pos + 81 >= |raw| then Failure(IndexOutOfRange)
      else if raw[pos + 81] != Space then Failure(NotAnEntry)
      else
        var p0 := Next(raw, pos + 82, Tab);
        if p0 == -1 then Failure(NotAnEntry)
        else
          var p1 := Next(raw, p0, LF);
          if p1 == -1 then Failure(NotAnEntry)
          else Success(Entry(oldId.value, newId.value, parseWho(raw, pos + 82), raw[p0..p1 - 1]))
  }

  /** The Entry(byte[], int) constructor, advancing its cursor pos as the source does. */
  method ParseEntry(raw: seq<Byte>, start: nat, parseWho: (seq<Byte>, nat) -> Option<PersonIdent>)
    returns (r: Result<Entry, EntryError>)
    ensures r == EntryAt(raw, start, parseWho)
  {
    var pos := start;
    var oldId := ObjectIdAt(raw, pos);
    if oldId.None? {
      return Failure(InvalidObjectId);
    }
    pos := pos + 40;
    if pos >= |raw| {
      return Failure(IndexOutOfRange);
    }
    if raw[pos] != Space {
      return Failure(NotAnEntry);
    }
    pos := pos + 1;
    var newId := ObjectIdAt(raw, pos);
    if newId.None? {
      return Failure(InvalidObjectId);
    }
    pos := pos + 40;
    if pos >= |raw| {
      return Failure(IndexOutOfRange);
    }
    if raw[pos] != Space {
      return Failure(NotAnEntry);
    }
    pos := pos + 1;
    var who := parseWho(raw, pos);
    var p0 := Next(raw, pos, Tab);
    if p0 == -1 {
      return Failure(NotAnEntry);
    }
    var p1 := Next(raw, p0, LF);
    if p1 == -1 {
      return Failure(NotAnEntry);
    }
    return Success(Entry(oldId.value, newId.value, who, raw[p0..p1 - 1]));
  }

  /** Next finds nothing exactly when c does not occur from ptr on. */
  lemma {:induction false} NextAbsent(raw: seq<Byte>, ptr: nat, c: Byte)
    requires ptr <= |raw|
    ensures Next(raw, ptr, c) == -1 <==> c !in raw[ptr..]
    decreases |raw| - ptr
  {
    if ptr < |raw| {
      assert raw[ptr..] == [raw[ptr]] + raw[ptr + 1..];
      NextAbsent(raw, ptr + 1, c);
    }
  }

  /** The hexadecimal text of an id reads back as that id. */
  lemma ObjectIdOfText(raw: seq<Byte>, pos: nat, id: ObjectId)
    requires |id.bytes| == 20 && pos + 40 <= |raw|
    requires forall k :: 0 <= k < 40 ==> raw[pos + k] == HexText(id.bytes)[k]
    ensures ObjectIdAt(raw, pos) == Some(id)
  {
    HexBytesOfText(raw, pos, id.bytes);
  }

  /** A line laid out as the reflog writes it (the two ids as ObjectIdOfText reads them, each
      followed by a space) parses to those ids, the ident the ident parser finds at pos + 82,
      and the comment between the first TAB after the ident and the LF after that. */
  lemma EntryOfLine(raw: seq<Byte>, pos: nat, oldId: ObjectId, newId: ObjectId, tabAt: nat, lfAt: nat,
                    parseWho: (seq<Byte>, nat) -> Option<PersonIdent>)
    requires pos + 82 <= tabAt < lfAt < |raw|
    requires ObjectIdAt(raw, pos) == Some(oldId) && raw[pos + 40] == Space
    requires ObjectIdAt(raw, pos + 41) == Some(newId) && raw[pos + 81] == Space
    requires raw[tabAt] == Tab && forall k :: pos + 82 <= k < tabAt ==> raw[k] != Tab
    requires raw[lfAt] == LF && forall k :: tabAt < k < lfAt ==> raw[k] != LF
    ensures EntryAt(raw, pos, parseWho) == Success(Entry(oldId, newId, parseWho(raw, pos + 82), raw[tabAt + 1..lfAt]))
  {
    NextAt(raw, pos + 82, Tab, tabAt);
    NextAt(raw, tabAt + 1, LF, lfAt);
  }

  /** The Entry constructor fails with its own ArgumentException exactly when a separator is
      missing: no space after an id, no TAB after the ident, or no LF after the TAB. */
  lemma EntryErrors(raw: seq<Byte>, pos: nat, parseWho: (seq<Byte>, nat) -> Option<PersonIdent>)
    ensures EntryAt(raw, pos, parseWho) == Failure(NotAnEntry) <==>
      && ObjectIdAt(raw, pos).Some? && pos + 40 < |raw|
      && (raw[pos + 40] != Space
          || (&& ObjectIdAt(raw, pos + 41).Some? && pos + 81 < |raw|
              && (raw[pos + 81] != Space
                  || Tab !in raw[pos + 82..]
                  || (Next(raw, pos + 82, Tab) > 0 && LF !in raw[Next(raw, pos + 82, Tab)..]))))
  {
    if ObjectIdAt(raw, pos).Some? && pos + 40 < |raw| && raw[pos + 40] == Space
       && ObjectIdAt(raw, pos + 41).Some? && pos + 81 < |raw| && raw[pos + 81] == Space {
      NextAbsent(raw, pos + 82, Tab);
      var p0 := Next(raw, pos + 82, Tab);
      if p0 != -1 {
        NextAbsent(raw, p0, LF);
      }
    }
  }

  /** The comment of a parsed entry is the text of one line: it starts just after the first
      TAB that follows the ident, holds no LF, and an LF follows it. */
  lemma EntryComment(raw: seq<Byte>, pos: nat, parseWho: (seq<Byte>, nat) -> Option<PersonIdent>)
    returns (p0: nat)
    requires EntryAt(raw, pos, parseWho).Success?
    ensures var c := EntryAt(raw, pos, parseWho).value.comment;
      && pos + 82 < p0 && p0 + |c| < |raw|
      && raw[p0 - 1] == Tab && Tab !in raw[pos + 82..p0 - 1]
      && raw[p0..p0 + |c|] == c && LF !in c
      && raw[p0 + |c|] == LF
  {
    p0 := Next(raw, pos + 82, Tab);
    var p1 := Next(raw, p0, LF);
    assert EntryAt(raw, pos, parseWho).value.comment == raw[p0..p1 - 1];
    CommentLine(raw, pos + 82, p0, p1);
  }

  /** The text between the TAB and the LF that Next finds holds no LF, and the text before the
      TAB holds no TAB. */
  lemma CommentLine(raw: seq<Byte>, from: nat, p0: int, p1: int)
    requires from <= |raw| && p0 == Next(raw, from, Tab) && p0 != -1
    requires p1 == Next(raw, p0, LF) && p1 != -1
    ensures from < p0 < p1 && raw[p0 - 1] == Tab && Tab !in raw[from..p0 - 1]
    ensures LF !in raw[p0..p1 - 1] && raw[p1 - 1] == LF
  {
    NextFirst(raw, from, Tab);
    NextFirst(raw, p0, LF);
    var c := raw[p0..p1 - 1];
    assert LF !in c by {
      forall k | 0 <= k < |c| ensures c[k] != LF {
        assert c[k] == raw[p0 + k];
      }
    }
    var w := raw[from..p0 - 1];
    assert Tab !in w by {
      forall k | 0 <= k < |w| ensures w[k] != Tab {
        assert w[k] == raw[from + k];
      }
    }
  }

  // ---------------------------------------------------------------------
  // Walking the log backward
  // ---------------------------------------------------------------------

  /** The offsets at which getReverseEntries parses entries, from the cursor rs (the byte before
      the LF that ends the next line to read) with max entries still allowed: each step moves
      rs to the byte before the previous LF and parses the line that starts after it, or the
      line at offset 0 once no LF is left. */
  function Starts(b: seq<Byte>, rs: int, max: int): (r: seq<nat>)
    requires -1 <= rs < |b|
    ensures |r| <= (if max < 0 then 0 else max)
    ensures rs < 0 ==> r == []
    decreases rs + 1
  {
    if rs < 0 || max <= 0 then []
    else
      var prev := PrevLF(b, rs);
      [if prev < 0 then 0 else prev + 2] + Starts(b, prev, max - 1)
  }

  /** The entries parsed at the given offsets, in order; the first entry that fails to parse
      ends the walk with its error. */
  function ParseAll(b: seq<Byte>, starts: seq<nat>, parseWho: (seq<Byte>, nat) -> Option<PersonIdent>)
    : (r: Result<seq<Entry>, EntryError>)
    ensures r.Success? ==> |r.value| == |starts|
  {
    if starts == [] then Success([])
    else
      match EntryAt(b, starts[0], parseWho)
      case Failure(e) => Failure(e)
      case Success(x) =>
        match ParseAll(b, starts[1..], parseWho)
        case Failure(e) => Failure(e)
        case Success(rest) => Success([x] + rest)
  }

  /** getReverseEntries(max) as a function of the log file's contents: no file gives no
      entries; otherwise the entries at the offsets of the backward walk that starts before
      the log's last LF. */
  function ReverseEntries(log: Option<seq<Byte>>, max: int, parseWho: (seq<Byte>, nat) -> Option<PersonIdent>)
    : Result<seq<Entry>, EntryError>
  {
    match log
    case None => Success([])
    case Some(b) => ParseAll(b, Starts(b, PrevLF(b, |b|), max), parseWho)
  }

  /** Entries already collected, followed by the rest of the walk or its failure. */
  function Prepend(done: seq<Entry>, rest: Result<seq<Entry>, EntryError>): Result<seq<Entry>, EntryError> {
    match rest
    case Failure(e) => Failure(e)
    case Success(es) => Success(done + es)
  }

  /** One step of the walk: the entry at the next start, then the rest of the walk. */
  lemma WalkStep(b: seq<Byte>, rs: int, max: int, parseWho: (seq<Byte>, nat) -> Option<PersonIdent>,
                 prev: int, left: int, r: Result<Entry, EntryError>)
    requires 0 <= rs < |b| && max > 0
    requires prev == PrevLF(b, rs) && left == max - 1
    requires r == EntryAt(b, if prev < 0 then 0 else prev + 2, parseWho)
    ensures r.Failure? ==> ParseAll(b, Starts(b, rs, max), parseWho) == Failure(r.error)
    ensures r.Success? ==> ParseAll(b, Starts(b, rs, max), parseWho)
                           == Prepend([r.value], ParseAll(b, Starts(b, prev, left), parseWho))
  {
    var s := Starts(b, rs, max);
    assert s[1..] == Starts(b, prev, left);
  }

  /** Collecting one more entry moves it from the rest of the walk to what is done. */
  lemma PrependOne(done: seq<Entry>, x: Entry, rest: Result<seq<Entry>, EntryError>)
    ensures Prepend(done, Prepend([x], rest)) == Prepend(done + [x], rest)
  {
    if rest.Success? {
      assert done + ([x] + rest.value) == (done + [x]) + rest.value;
    }
  }

  /** getReverseEntries(int max): the backward loop over the log. */
  method GetReverseEntries(log: Option<seq<Byte>>, max: Int32, parseWho: (seq<Byte>, nat) -> Option<PersonIdent>)
    returns (r: Result<seq<Entry>, EntryError>)
    ensures r == ReverseEntries(log, max, parseWho)
  {
    if log.None? {
      return Success([]);
    }
    var b := log.value;
    var rs := PrevLF(b, |b|);
    var ret: seq<Entry> := [];
    var m := max;
    ghost var all := ParseAll(b, Starts(b, rs, m), parseWho);
    PrependNone(all);
    while rs >= 0 && m > 0
      invariant -1 <= rs < |b|
      invariant all == Prepend(ret, ParseAll(b, Starts(b, rs, m), parseWho))
      decreases rs + 1
    {
      ghost var (rs0, m0) := (rs, m);
      m := m - 1;
      rs := PrevLF(b, rs);
      var e := ParseEntry(b, if rs < 0 then 0 else rs + 2, parseWho);
      WalkStep(b, rs0, m0, parseWho, rs, m, e);
      if e.Failure? {
        return Failure(e.error);
      }
      ghost var rest := ParseAll(b, Starts(b, rs, m), parseWho);
      assert all == Prepend(ret, Prepend([e.value], rest));
      PrependOne(ret, e.value, rest);
      ret := ret + [e.value];
    }
    assert ret + [] == ret;
    return Success(ret);
  }

  /** Nothing collected yet: the walk is all that remains. */
  lemma PrependNone(rest: Result<seq<Entry>, EntryError>)
    ensures Prepend([], rest) == rest
  {
    if rest.Success? {
      assert [] + rest.value == rest.value;
    }
  }

  /** getReverseEntries(): every entry, through getReverseEntries(int.MaxValue). */
  method GetAllReverseEntries(log: Option<seq<Byte>>, parseWho: (seq<Byte>, nat) -> Option<PersonIdent>)
    returns (r: Result<seq<Entry>, EntryError>)
    ensures r == ReverseEntries(log, MaxInt32, parseWho)
  {
    r := GetReverseEntries(log, MaxInt32, parseWho);
  }

  /** What getLastEntry returns: the single entry of getReverseEntries(1), or null (None) when
      there is none. */
  function LastEntry(log: Option<seq<Byte>>, parseWho: (seq<Byte>, nat) -> Option<PersonIdent>)
    : Result<Option<Entry>, EntryError>
  {
    match ReverseEntries(log, 1, parseWho)
    case Failure(e) => Failure(e)
    case Success(es) => Success(if es == [] then None else Some(es[0]))
  }

  /** getLastEntry. */
  method GetLastEntry(log: Option<seq<Byte>>, parseWho: (seq<Byte>, nat) -> Option<PersonIdent>)
    returns (r: Result<Option<Entry>, EntryError>)
    ensures r == LastEntry(log, parseWho)
  {
    var entries := GetReverseEntries(log, 1, parseWho);
    if entries.Failure? {
      return Failure(entries.error);
    }
    if |entries.value| == 0 {
      return Success(None);
    }
    return Success(Some(entries.value[0]));
  }


  // ---------------------------------------------------------------------
  // What the walk visits
  // ---------------------------------------------------------------------

  /** Offset s starts a line of b: it is 0, or an LF precedes it. */
  predicate LineStart(b: seq<Byte>, s: int) {
    s == 0 || (0 < s <= |b| && b[s - 1] == LF)
  }

  /** Line starts, each before the one listed just earlier, and none past bound. */
  predicate DescendingLineStarts(b: seq<Byte>, s: seq<nat>, bound: int) {
    && (forall i :: 0 <= i < |s| ==> s[i] <= bound && LineStart(b, s[i]))
    && (forall i :: 0 < i < |s| ==> s[i] < s[i - 1])
  }

  /** The walk visits line starts, each before the one visited just earlier, and none past
      the cursor it began from. */
  lemma {:induction false} StartsDescend(b: seq<Byte>, rs: int, max: int)
    requires -1 <= rs < |b|
    ensures DescendingLineStarts(b, Starts(b, rs, max), rs + 1)
    decreases rs + 1
  {
    if rs >= 0 && max > 0 {
      var prev := PrevLF(b, rs);
      assert prev == Prev(b, rs);
      PrevFound(b, rs);
      StartsDescend(b, prev, max - 1);
      var s := Starts(b, rs, max);
      var t := Starts(b, prev, max - 1);
      assert s[1..] == t;
      forall i | 0 < i < |s| ensures s[i] < s[i - 1] && s[i] <= rs + 1 && LineStart(b, s[i]) {
        assert s[i] == t[i - 1];
        if i > 1 {
          assert s[i - 1] == t[i - 2];
        }
      }
    }
  }

  /** No LF lies in b[lo..hi), an LF at offset 0 aside. */
  predicate NoLineBreak(b: seq<Byte>, lo: int, hi: int) {
    forall k :: lo <= k < hi && 0 < k < |b| ==> b[k] != LF
  }

  /** The walk skips no line: from the first line it visits up to the cursor, and between each
      line it visits and the one it visited just before, there is no LF but the one that ends
      the earlier line (an LF at offset 0 aside, which the scan cannot tell from the start of
      the file). */
  lemma {:induction false} StartsAdjacent(b: seq<Byte>, rs: int, max: int)
    requires -1 <= rs < |b|
    ensures var s := Starts(b, rs, max);
      && (|s| > 0 ==> NoLineBreak(b, s[0], rs + 1))
      && (forall i :: 0 < i < |s| ==> NoLineBreak(b, s[i], s[i - 1] as int - 1))
    decreases rs + 1
  {
    if rs >= 0 && max > 0 {
      var prev := PrevLF(b, rs);
      assert prev == Prev(b, rs);
      PrevFound(b, rs);
      StartsAdjacent(b, prev, max - 1);
      var s := Starts(b, rs, max);
      var t := Starts(b, prev, max - 1);
      assert s[1..] == t;
      forall i | 0 < i < |s| ensures NoLineBreak(b, s[i], s[i - 1] as int - 1) {
        assert s[i] == t[i - 1];
        if i > 1 {
          assert s[i - 1] == t[i - 2];
        }
      }
    }
  }

  /** The walk ends early only at the start of the file: when it visits fewer lines than it
      may, the last line it visits is the one at offset 0. */
  lemma {:induction false} StartsReachStart(b: seq<Byte>, rs: int, max: int)
    requires -1 <= rs < |b|
    requires |Starts(b, rs, max)| < max
    ensures var s := Starts(b, rs, max); (s == [] && rs < 0) || s[|s| - 1] == 0
    decreases rs + 1
  {
    if rs >= 0 {
      var prev := PrevLF(b, rs);
      var s := Starts(b, rs, max);
      assert s[1..] == Starts(b, prev, max - 1);
      StartsReachStart(b, prev, max - 1);
    }
  }

  /** A walk allowed fewer entries is the beginning of a walk allowed more. */
  lemma {:induction false} StartsPrefix(b: seq<Byte>, rs: int, m: int, n: int)
    requires -1 <= rs < |b| && m <= n
    ensures var s := Starts(b, rs, m); |s| <= |Starts(b, rs, n)| && s == Starts(b, rs, n)[..|s|]
    decreases rs + 1
  {
    if rs >= 0 && m > 0 {
      var prev := PrevLF(b, rs);
      StartsPrefix(b, prev, m - 1, n - 1);
      var s, t := Starts(b, rs, m), Starts(b, rs, n);
      assert s[1..] == Starts(b, prev, m - 1);
      assert t[1..] == Starts(b, prev, n - 1);
    }
  }

  /** Each of es is the entry at the offset listed with it. */
  predicate EntriesAt(b: seq<Byte>, starts: seq<nat>, es: seq<Entry>, parseWho: (seq<Byte>, nat) -> Option<PersonIdent>) {
    |es| == |starts| && forall k :: 0 <= k < |starts| ==> EntryAt(b, starts[k], parseWho) == Success(es[k])
  }

  /** Each entry of a successful walk is the entry at its offset. */
  lemma {:induction false} ParseAllAt(b: seq<Byte>, starts: seq<nat>, parseWho: (seq<Byte>, nat) -> Option<PersonIdent>)
    requires ParseAll(b, starts, parseWho).Success?
    ensures EntriesAt(b, starts, ParseAll(b, starts, parseWho).value, parseWho)
  {
    if starts != [] {
      ParseAllAt(b, starts[1..], parseWho);
      var es := ParseAll(b, starts, parseWho).value;
      assert es[1..] == ParseAll(b, starts[1..], parseWho).value;
      forall k | 0 < k < |starts| ensures EntryAt(b, starts[k], parseWho) == Success(es[k]) {
        assert starts[k] == starts[1..][k - 1] && es[k] == es[1..][k - 1];
      }
    }
  }

  /** If the longer walk parses, so does its beginning, to the beginning of its entries. */
  lemma {:induction false} ParseAllPrefix(b: seq<Byte>, s: seq<nat>, t: seq<nat>, parseWho: (seq<Byte>, nat) -> Option<PersonIdent>)
    requires ParseAll(b, s + t, parseWho).Success?
    ensures ParseAll(b, s, parseWho).Success?
    ensures ParseAll(b, s, parseWho).value == ParseAll(b, s + t, parseWho).value[..|s|]
  {
    if s != [] {
      assert (s + t)[1..] == s[1..] + t;
      ParseAllPrefix(b, s[1..], t, parseWho);
    }
  }

  /** getReverseEntries(max) gives no entries when there is no log file or max <= 0. */
  lemma ReverseEntriesEmpty(log: Option<seq<Byte>>, max: int, parseWho: (seq<Byte>, nat) -> Option<PersonIdent>)
    requires log.None? || max <= 0
    ensures ReverseEntries(log, max, parseWho) == Success([])
  {
  }

  /** What getReverseEntries(max) lists when it succeeds: at most max entries, read from line
      starts in decreasing order (last line first), each the entry at its offset, with the line
      at offset 0 read last whenever fewer than max come back. */
  lemma ReverseEntriesOrder(b: seq<Byte>, max: int, parseWho: (seq<Byte>, nat) -> Option<PersonIdent>)
    returns (starts: seq<nat>)
    requires ReverseEntries(Some(b), max, parseWho).Success?
    ensures |starts| <= max || starts == []
    ensures DescendingLineStarts(b, starts, |b|)
    ensures EntriesAt(b, starts, ReverseEntries(Some(b), max, parseWho).value, parseWho)
    ensures |starts| < max ==> starts == [] || starts[|starts| - 1] == 0
  {
    var rs := PrevLF(b, |b|);
    starts := Starts(b, rs, max);
    StartsDescend(b, rs, max);
    ParseAllAt(b, starts, parseWho);
    if |starts| < max {
      StartsReachStart(b, rs, max);
    }
  }

  /** The walk begins with the last line that an LF ends; text after the last LF is not read. */
  lemma ReverseWalkBegins(b: seq<Byte>)
    ensures var rs := PrevLF(b, |b|);
      && (rs >= 0 ==> b[rs + 1] == LF)
      && forall k :: rs + 2 <= k < |b| ==> b[k] != LF
  {
    assert PrevLF(b, |b|) == Prev(b, |b| - 1);
    PrevFound(b, |b| - 1);
  }

  /** getLastEntry is the first entry of every longer listing that succeeds. */
  lemma LastEntryIsFirst(log: Option<seq<Byte>>, n: int, parseWho: (seq<Byte>, nat) -> Option<PersonIdent>)
    requires n >= 1 && ReverseEntries(log, n, parseWho).Success?
    ensures var es := ReverseEntries(log, n, parseWho).value;
      LastEntry(log, parseWho) == Success(if es == [] then None else Some(es[0]))
  {
    if log.Some? {
      var b := log.value;
      var rs := PrevLF(b, |b|);
      var s1, sn := Starts(b, rs, 1), Starts(b, rs, n);
      StartsPrefix(b, rs, 1, n);
      assert sn == s1 + sn[|s1|..];
      ParseAllPrefix(b, s1, sn[|s1|..], parseWho);
    }
  }

}
