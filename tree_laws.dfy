/**
 * The tree grammar as an encoder: a tree is the concatenation of its entries,
 * each `mode SP name NUL id` with the mode in octal. The checker accepts
 * exactly the encodings of well-formed entry lists in tree order, and rejects
 * the others with the diagnostic of the first entry out of order.
 */
module TreeLaws {
  import opened Wrappers
  import opened ObjectChecker

  /** A name a tree entry may carry: not empty, not `.` or `..`, no NUL and no '/'. */
  predicate ValidName(n: string) {
    && n != [] && n != "." && n != ".."
    && forall k :: 0 <= k < |n| ==> n[k] != Nul && n[k] != '/'
  }

  predicate WellFormedEntry(e: TreeEntry) {
    SupportedMode(e.mode) && ValidName(e.name) && |e.id| == RawIdLength
  }

  predicate AllWellFormed(es: seq<TreeEntry>) {
    forall k :: 0 <= k < |es| ==> WellFormedEntry(es[k])
  }

  /** One entry in front of the text that follows it. */
  function EncodeEntry(e: TreeEntry, rest: string): string {
    OctalText(e.mode) + (" " + (e.name + ([Nul] + (e.id + rest))))
  }

  function EncodeTree(es: seq<TreeEntry>): string {
    if es == [] then [] else EncodeEntry(es[0], EncodeTree(es[1..]))
  }

  /**
   * Tree order over `all` from index `from` on: no entry repeats the name of an
   * entry before it, and none sorts before its predecessor.
   */
  predicate InTreeOrder(all: seq<TreeEntry>, from: nat) {
    && (forall i, j :: 0 <= i < j < |all| && from <= j ==> all[i].name != all[j].name)
    && (forall j :: 0 < j < |all| && from <= j ==>
          PathCompare(all[j - 1].name, all[j - 1].mode, all[j].name, all[j].mode) <= 0)
  }

  /**
   * The verdict on reading the entries es after done: the first entry that
   * repeats a name or sorts before its predecessor decides the diagnostic.
   */
  function OrderVerdict(done: seq<TreeEntry>, es: seq<TreeEntry>): Result<seq<TreeEntry>, string>
    decreases |es|
  {
    if es == [] then Success(done)
    else if es[0].name in Names(done) then Failure("duplicate entry names")
    else if done != [] && PathCompare(done[|done| - 1].name, done[|done| - 1].mode, es[0].name, es[0].mode) > 0 then
      Failure("incorrectly sorted")
    else OrderVerdict(done + [es[0]], es[1..])
  }

  // ---------------------------------------------------------------------
  // Octal modes
  // ---------------------------------------------------------------------

  lemma {:induction false} OctalValueOfText(n: nat)
    ensures OctalValue(OctalText(n)) == n
    decreases n
  {
    var s := OctalText(n);
    if n >= 8 {
      OctalValueOfText(n / 8);
      assert s[..|s| - 1] == OctalText(n / 8);
    }
  }

  lemma {:induction false} OctalValuePositive(d: string)
    requires AllOctal(d) && d != [] && d[0] != '0'
    ensures OctalValue(d) >= 1
    decreases |d|
  {
    if |d| > 1 {
      OctalValuePositive(d[..|d| - 1]);
    }
  }

  /** Octal digits without a leading zero are the spelling of their value. */
  lemma {:induction false} OctalTextOfValue(d: string)
    requires AllOctal(d) && d != [] && d[0] != '0'
    ensures OctalText(OctalValue(d)) == d
    decreases |d|
  {
    var n := OctalValue(d);
    var last := d[|d| - 1];
    if |d| == 1 {
      assert d[..0] == [] && last == d[0] && IsOctal(last);
      assert OctalValue(d[..0]) == 0;
      assert n == last as int - '0' as int;
      assert OctalDigit(n) == last;
    } else {
      var init := d[..|d| - 1];
      OctalValuePositive(init);
      OctalTextOfValue(init);
      assert n / 8 == OctalValue(init) && n % 8 == last as int - '0' as int;
      assert OctalDigit(n % 8) == last;
      assert d == init + [last];
    }
  }

  // ---------------------------------------------------------------------
  // Reading one entry
  // ---------------------------------------------------------------------

  /** Octal digits without a leading zero, up to a space, scan to their value. */
  lemma {:induction false} ScanModeOf(data: string, m: nat, i: nat)
    requires i <= m < |data| && data[m] == ' '
    requires AllOctal(data[..m]) && m > 0 && data[0] != '0'
    ensures AllOctal(data[..i])
    ensures ScanMode(data, i, OctalValue(data[..i])) == Success((OctalValue(data[..m]), m))
    decreases m - i
  {
    assert data[..i] == data[..m][..i];
    if i < m {
      assert data[i] == data[..m][i];
      assert data[..i + 1][..i] == data[..i];
      ScanModeOf(data, m, i + 1);
      if i > 0 {
        OctalValuePositive(data[..i]);
      }
    }
  }

  /** What the mode scan accepts is octal digits, without a leading zero, and their value. */
  lemma {:induction false} ScanModeSplit(data: string, i: nat, mode: nat)
    requires i <= |data| && AllOctal(data[..i]) && mode == OctalValue(data[..i])
    requires (i > 0 ==> data[0] != '0') && ScanMode(data, i, mode).Success?
    ensures AllOctal(data[..ScanMode(data, i, mode).value.1])
    ensures ScanMode(data, i, mode).value.0 == OctalValue(data[..ScanMode(data, i, mode).value.1])
    ensures ScanMode(data, i, mode).value.1 > 0 ==> data[0] != '0'
    decreases |data| - i
  {
    if data[i] != ' ' {
      var next := mode * 8 + (data[i] as int - '0' as int);
      assert data[..i + 1] == data[..i] + [data[i]];
      assert data[..i + 1][..i] == data[..i];
      ScanModeSplit(data, i + 1, next);
    }
  }

  lemma {:induction false} ScanNameOf(data: string, m: nat, i: nat)
    requires i <= m < |data| && data[m] == Nul
    requires forall k :: i <= k < m ==> data[k] != Nul && data[k] != '/'
    ensures ScanName(data, i) == Success(m)
    decreases m - i
  {
    if i < m {
      ScanNameOf(data, m, i + 1);
    }
  }

  /** A name the scan accepts holds no NUL and no '/'. */
  lemma {:induction false} ScanNameClean(data: string, i: nat)
    requires i <= |data| && ScanName(data, i).Success?
    ensures forall k :: i <= k < ScanName(data, i).value ==> data[k] != Nul && data[k] != '/'
    decreases |data| - i
  {
    if data[i] != Nul {
      ScanNameClean(data, i + 1);
    }
  }

  /** The header read where the mode ends at sp and the name at nul. */
  lemma {:induction false} EntryHeaderAt(data: string, sp: nat, nul: nat, mode: nat, name: string)
    requires HeaderRead(data, mode, sp, nul, name) && SupportedMode(mode) && ValidName(name)
    ensures EntryHeader(data) == Success((mode, name, nul + 1))
  {
  }

  /** Where the NUL after the name of e lies, and where the entry ends. */
  function NameEnd(e: TreeEntry): nat {
    |OctalText(e.mode)| + 1 + |e.name|
  }

  function EntryEnd(e: TreeEntry): nat {
    NameEnd(e) + 1 + |e.id|
  }

  /** The entry e lies at the head of data: mode, space, name, NUL and id. */
  predicate EntryAt(data: string, e: TreeEntry) {
    var m := |OctalText(e.mode)|;
    var n := NameEnd(e);
    && EntryEnd(e) <= |data|
    && data[..m] == OctalText(e.mode) && data[m] == ' ' && data[m + 1..n] == e.name
    && data[n] == Nul && data[n + 1..EntryEnd(e)] == e.id
  }

  /** The mode of an entry at the head of data is scanned up to its space and read back. */
  lemma {:induction false} ModeScanFrom(data: string, e: TreeEntry)
    requires SupportedMode(e.mode) && EntryAt(data, e)
    ensures ScanMode(data, 0, 0) == Success((e.mode, |OctalText(e.mode)|))
  {
    var d := OctalText(e.mode);
    assert data[0] == d[0];
    assert data[..0] == [];
    ScanModeOf(data, |d|, 0);
    OctalValueOfText(e.mode);
  }

  /** The name of an entry at the head of data is scanned up to its NUL. */
  lemma {:induction false} NameScanFrom(data: string, e: TreeEntry)
    requires ValidName(e.name) && EntryAt(data, e)
    ensures ScanName(data, |OctalText(e.mode)| + 1) == Success(NameEnd(e))
  {
    var m := |OctalText(e.mode)| + 1;
    var n := NameEnd(e);
    forall k | m <= k < n
      ensures data[k] != Nul && data[k] != '/'
    {
      assert data[k] == data[m..n][k - m];
    }
    ScanNameOf(data, n, m);
  }

  /** The mode and the name of a well-formed entry at the head of data are read. */
  lemma {:induction false} HeaderReadFrom(data: string, e: TreeEntry)
    requires WellFormedEntry(e) && EntryAt(data, e)
    ensures HeaderRead(data, e.mode, |OctalText(e.mode)|, NameEnd(e), e.name)
  {
    ModeScanFrom(data, e);
    NameScanFrom(data, e);
  }

  /** The header of a well-formed entry at the head of data reads back its mode and name. */
  lemma {:induction false} EntryHeaderFrom(data: string, e: TreeEntry)
    requires WellFormedEntry(e) && EntryAt(data, e)
    ensures EntryHeader(data) == Success((e.mode, e.name, NameEnd(e) + 1))
  {
    HeaderReadFrom(data, e);
    EntryHeaderAt(data, |OctalText(e.mode)|, NameEnd(e), e.mode, e.name);
  }

  /** One step of the checker, once the header of the entry at the head of data is read. */
  lemma {:induction false} EntryStepAt(data: string, mode: nat, name: string, idStart: nat, done: seq<TreeEntry>)
    requires |data| > 0 && EntryHeader(data) == Success((mode, name, idStart))
    ensures CheckEntries(data, done) ==
      if name in Names(done) then Failure("duplicate entry names")
      else if done != [] && PathCompare(done[|done| - 1].name, done[|done| - 1].mode, name, mode) > 0 then
        Failure("incorrectly sorted")
      else if |data| < idStart + RawIdLength then Failure("truncated in object id")
      else CheckEntries(data[idStart + RawIdLength..], done + [TreeEntry(mode, name, data[idStart..idStart + RawIdLength])])
  {
  }

  /** Reading a well-formed entry at the head of data: the order checks, then the rest. */
  lemma {:induction false} EntryStep(data: string, e: TreeEntry, done: seq<TreeEntry>)
    requires WellFormedEntry(e) && EntryAt(data, e)
    ensures CheckEntries(data, done) ==
      if e.name in Names(done) then Failure("duplicate entry names")
      else if done != [] && PathCompare(done[|done| - 1].name, done[|done| - 1].mode, e.name, e.mode) > 0 then
        Failure("incorrectly sorted")
      else CheckEntries(data[EntryEnd(e)..], done + [e])
  {
    EntryHeaderFrom(data, e);
    EntryStepAt(data, e.mode, e.name, NameEnd(e) + 1, done);
  }

  /** data is the entries es, one after the other. */
  predicate Encodes(data: string, es: seq<TreeEntry>)
    decreases |es|
  {
    if es == [] then |data| == 0
    else EntryAt(data, es[0]) && Encodes(data[EntryEnd(es[0])..], es[1..])
  }

  /** On well-formed entries the checker gives the order verdict. */
  lemma {:induction false} EntriesOf(data: string, es: seq<TreeEntry>, done: seq<TreeEntry>)
    requires AllWellFormed(es) && Encodes(data, es)
    ensures CheckEntries(data, done) == OrderVerdict(done, es)
    decreases |es|
  {
    if es == [] {
      assert data == [];
    } else {
      EntriesOf(data[EntryEnd(es[0])..], es[1..], done + [es[0]]);
      EntryStep(data, es[0], done);
    }
  }

  // ---------------------------------------------------------------------
  // Encodings
  // ---------------------------------------------------------------------

  /** An encoded entry lies at the head of its encoding, in front of rest. */
  lemma {:induction false} EncodedEntryAt(e: TreeEntry, rest: string)
    ensures EntryAt(EncodeEntry(e, rest), e) && EncodeEntry(e, rest)[EntryEnd(e)..] == rest
  {
  }

  lemma {:induction false} EncodesTree(es: seq<TreeEntry>)
    ensures Encodes(EncodeTree(es), es)
    decreases |es|
  {
    if es != [] {
      EncodesTree(es[1..]);
      EncodedEntryAt(es[0], EncodeTree(es[1..]));
    }
  }

  /** A known slice in front of the rest of a text. */
  lemma {:induction false} SliceFront(s: string, i: nat, j: nat, v: string)
    requires i <= j <= |s| && s[i..j] == v
    ensures s[i..] == v + s[j..]
  {
  }

  /** A known character in front of the rest of a text. */
  lemma {:induction false} CharFront(s: string, i: nat, c: char)
    requires i < |s| && s[i] == c
    ensures s[i..] == [c] + s[i + 1..]
  {
  }

  /** A text with an entry at its head is that entry's encoding in front of what follows. */
  lemma {:induction false} EntryOfParts(data: string, e: TreeEntry)
    requires EntryAt(data, e)
    ensures data == EncodeEntry(e, data[EntryEnd(e)..])
  {
    var sp := |OctalText(e.mode)|;
    var nul := NameEnd(e);
    AfterName(data, e);
    SliceFront(data, sp + 1, nul, e.name);
    CharFront(data, sp, ' ');
    SliceFront(data, 0, sp, OctalText(e.mode));
    assert data[0..] == data;
  }

  /** What follows the name of an entry at the head of a text: its NUL, its id and the rest. */
  lemma {:induction false} AfterName(data: string, e: TreeEntry)
    requires EntryAt(data, e)
    ensures data[NameEnd(e)..] == [Nul] + (e.id + data[EntryEnd(e)..])
  {
    var nul := NameEnd(e);
    SliceFront(data, nul + 1, EntryEnd(e), e.id);
    CharFront(data, nul, Nul);
  }

  /** A text that is the entries es one after the other is their encoding. */
  lemma {:induction false} EncodesOnlyTree(data: string, es: seq<TreeEntry>)
    requires Encodes(data, es)
    ensures data == EncodeTree(es)
    decreases |es|
  {
    if es == [] {
      assert data == [];
    } else {
      EncodesOnlyTree(data[EntryEnd(es[0])..], es[1..]);
      EntryOfParts(data, es[0]);
    }
  }

  // ---------------------------------------------------------------------
  // The order verdict
  // ---------------------------------------------------------------------

  /** The order verdict accepts exactly the lists in tree order, and then returns all entries. */
  lemma {:induction false} VerdictIsOrder(done: seq<TreeEntry>, es: seq<TreeEntry>)
    ensures OrderVerdict(done, es).Success? <==> InTreeOrder(done + es, |done|)
    ensures OrderVerdict(done, es).Success? ==> OrderVerdict(done, es).value == done + es
    ensures OrderVerdict(done, es).Failure? ==>
      OrderVerdict(done, es).error in {"duplicate entry names", "incorrectly sorted"}
    decreases |es|
  {
    var all := done + es;
    if es == [] {
      assert all == done;
    } else {
      var next := done + [es[0]];
      assert next + es[1..] == all;
      VerdictIsOrder(next, es[1..]);
      var k := |done|;
      assert all[k] == es[0];
      if es[0].name in Names(done) {
        var i :| 0 <= i < |done| && Names(done)[i] == es[0].name;
        assert all[i].name == all[k].name;
      } else if done != [] && PathCompare(done[k - 1].name, done[k - 1].mode, es[0].name, es[0].mode) > 0 {
        assert all[k - 1] == done[k - 1];
      } else {
        forall i | 0 <= i < k
          ensures all[i].name != all[k].name
        {
          assert all[i] == done[i] && Names(done)[i] == done[i].name;
        }
      }
    }
  }

  // ---------------------------------------------------------------------
  // Trees
  // ---------------------------------------------------------------------

  /** Every list of well-formed entries in tree order encodes an accepted tree. */
  lemma {:induction false} TreeAccepted(es: seq<TreeEntry>)
    requires AllWellFormed(es) && InTreeOrder(es, 0)
    ensures CheckTree(EncodeTree(es)) == Success(())
  {
    EncodesTree(es);
    EntriesOf(EncodeTree(es), es, []);
    VerdictIsOrder([], es);
    assert [] + es == es;
  }

  /** A list of well-formed entries out of tree order is rejected, for a name or an order. */
  lemma {:induction false} TreeRejected(es: seq<TreeEntry>)
    requires AllWellFormed(es) && !InTreeOrder(es, 0)
    ensures CheckTree(EncodeTree(es)) == Failure("duplicate entry names")
      || CheckTree(EncodeTree(es)) == Failure("incorrectly sorted")
  {
    EncodesTree(es);
    EntriesOf(EncodeTree(es), es, []);
    VerdictIsOrder([], es);
    assert [] + es == es;
  }

  /** The mode an accepted header reads is spelt, without a leading zero, before its space. */
  lemma {:induction false} ModePart(data: string)
    requires EntryHeader(data).Success?
    ensures var sp := ScanMode(data, 0, 0).value.1;
      && sp < |data| && data[..sp] == OctalText(EntryHeader(data).value.0) && data[sp] == ' '
      && SupportedMode(EntryHeader(data).value.0)
  {
    var (mode, sp) := ScanMode(data, 0, 0).value;
    assert data[..0] == [];
    ScanModeSplit(data, 0, 0);
    assert sp > 0;
    OctalTextOfValue(data[..sp]);
  }

  /** The name an accepted header reads is valid, and lies between the space and a NUL. */
  lemma {:induction false} NamePart(data: string)
    requires EntryHeader(data).Success?
    ensures var sp := ScanMode(data, 0, 0).value.1; var nul := EntryHeader(data).value.2 - 1;
      && sp < nul < |data| && data[sp + 1..nul] == EntryHeader(data).value.1 && data[nul] == Nul
      && ValidName(EntryHeader(data).value.1)
  {
    var (mode, name, idStart) := EntryHeader(data).value;
    var sp := ScanMode(data, 0, 0).value.1;
    ScanNameClean(data, sp + 1);
    forall k | 0 <= k < |name|
      ensures name[k] != Nul && name[k] != '/'
    {
      assert name[k] == data[sp + 1 + k];
    }
  }

  /** The entry at the head of data, once its header is read and its id is there, is well formed. */
  lemma {:induction false} EntrySplit(data: string) returns (e: TreeEntry)
    requires EntryHeader(data).Success?
    requires |data| >= EntryHeader(data).value.2 + RawIdLength
    ensures WellFormedEntry(e) && EntryAt(data, e)
    ensures e.mode == EntryHeader(data).value.0 && e.name == EntryHeader(data).value.1
    ensures EntryEnd(e) == EntryHeader(data).value.2 + RawIdLength
  {
    var (mode, name, idStart) := EntryHeader(data).value;
    ModePart(data);
    NamePart(data);
    e := TreeEntry(mode, name, data[idStart..idStart + RawIdLength]);
  }

  /** A successful read of a non-empty text goes on from the entry at its head. */
  lemma {:induction false} EntryNext(data: string, done: seq<TreeEntry>) returns (e: TreeEntry)
    requires |data| > 0 && CheckEntries(data, done).Success?
    ensures WellFormedEntry(e) && EntryAt(data, e)
    ensures CheckEntries(data[EntryEnd(e)..], done + [e]) == CheckEntries(data, done)
  {
    var (mode, name, idStart) := EntryHeader(data).value;
    EntryStepAt(data, mode, name, idStart, done);
    e := EntrySplit(data);
  }

  lemma {:induction false} EncodesCons(data: string, e: TreeEntry, es: seq<TreeEntry>)
    requires EntryAt(data, e) && Encodes(data[EntryEnd(e)..], es)
    ensures Encodes(data, [e] + es)
  {
    assert ([e] + es)[0] == e && ([e] + es)[1..] == es;
  }

  lemma {:induction false} AllWellFormedCons(e: TreeEntry, es: seq<TreeEntry>)
    requires WellFormedEntry(e) && AllWellFormed(es)
    ensures AllWellFormed([e] + es)
  {
    assert forall k :: 0 < k <= |es| ==> ([e] + es)[k] == es[k - 1];
  }

  /** What the checker reads successfully is a run of well-formed entries. */
  lemma {:induction false} EntriesDecoded(data: string, done: seq<TreeEntry>) returns (es: seq<TreeEntry>)
    requires CheckEntries(data, done).Success?
    ensures AllWellFormed(es) && Encodes(data, es)
    decreases |data|
  {
    if |data| == 0 {
      es := [];
    } else {
      var e := EntryNext(data, done);
      var qs := EntriesDecoded(data[EntryEnd(e)..], done + [e]);
      es := [e] + qs;
      EncodesCons(data, e, qs);
      AllWellFormedCons(e, qs);
    }
  }

  /** Every accepted tree is the encoding of a list of well-formed entries in tree order. */
  lemma {:induction false} TreeDecoded(data: string) returns (es: seq<TreeEntry>)
    requires CheckTree(data).Success?
    ensures AllWellFormed(es) && InTreeOrder(es, 0) && EncodeTree(es) == data
  {
    es := EntriesDecoded(data, []);
    EncodesOnlyTree(data, es);
    EntriesOf(data, es, []);
    VerdictIsOrder([], es);
    assert [] + es == es;
  }

  // ---------------------------------------------------------------------
  // Malformed headers
  //
  // An entry is spelt `mode SP name NUL id`; each lemma below fixes the first
  // part that goes wrong and states the message the checker gives for it.
  // ---------------------------------------------------------------------

  /** data spells the mode m in octal, a space, and then tail. */
  predicate Spells(data: string, m: nat, tail: string) {
    var d := OctalText(m);
    && |d| < |data| && data[..|d|] == d && data[|d|] == ' ' && data[|d| + 1..] == tail
  }

  lemma {:induction false} SpellsConcat(m: nat, tail: string)
    ensures Spells(OctalText(m) + (" " + tail), m, tail)
  {
  }

  /** Octal digits without a leading zero, then a space, are read as the mode they spell. */
  lemma {:induction false} ModeRead(data: string, m: nat, tail: string)
    requires m > 0 && Spells(data, m, tail)
    ensures ScanMode(data, 0, 0) == Success((m, |OctalText(m)|))
  {
    var d := OctalText(m);
    assert data[0] == data[..|d|][0];
    assert data[..0] == [];
    ScanModeOf(data, |d|, 0);
    OctalValueOfText(m);
  }

  /** A header the checker refuses refuses the whole tree, with the same message. */
  lemma {:induction false} HeaderRejected(data: string)
    requires data != [] && EntryHeader(data).Failure?
    ensures CheckTree(data) == Failure(EntryHeader(data).error)
  {
  }

  /** A mode that is none of the five git knows is refused, spelt out in octal. */
  lemma {:induction false} ModeRejected(data: string, m: nat, tail: string)
    requires Spells(data, m, tail) && m > 0 && !SupportedMode(m)
    ensures CheckTree(data) == Failure("invalid mode " + OctalText(m))
  {
    ModeRead(data, m, tail);
    HeaderRejected(data);
  }

  /** The name scan passes over characters that are neither NUL nor '/'. */
  lemma {:induction false} NameSkipped(data: string, i: nat, name: string)
    requires i + |name| <= |data| && data[i..i + |name|] == name
    requires Nul !in name && '/' !in name
    ensures ScanName(data, i) == ScanName(data, i + |name|)
    decreases |name|
  {
    if name != [] {
      assert data[i] == name[0];
      assert data[i + 1..i + |name|] == name[1..];
      NameSkipped(data, i + 1, name[1..]);
    }
  }

  /** The name scan over a name, from the index after the space. */
  lemma {:induction false} NameScan(data: string, m: nat, name: string, after: string)
    requires Spells(data, m, name + after) && Nul !in name && '/' !in name
    ensures |OctalText(m)| + 1 + |name| <= |data|
    ensures data[|OctalText(m)| + 1..|OctalText(m)| + 1 + |name|] == name
    ensures ScanName(data, |OctalText(m)| + 1) == ScanName(data, |OctalText(m)| + 1 + |name|)
    ensures data[|OctalText(m)| + 1 + |name|..] == after
  {
    var i := |OctalText(m)| + 1;
    assert data[i..][..|name|] == name && data[i..][|name|..] == after;
    assert data[i..i + |name|] == data[i..][..|name|];
    assert data[i + |name|..] == data[i..][|name|..];
    NameSkipped(data, i, name);
  }

  /** The name scan fails after a supported mode: the tree is refused with its message. */
  lemma {:induction false} NameScanRejected(data: string, mode: nat, sp: nat)
    requires ScanMode(data, 0, 0) == Success((mode, sp)) && SupportedMode(mode)
    requires ScanName(data, sp + 1).Failure?
    ensures CheckTree(data) == Failure(ScanName(data, sp + 1).error)
  {
    HeaderRejected(data);
  }

  /** The name scan stops at a '/' with its message. */
  lemma {:induction false} SlashStops(data: string, i: nat)
    requires i < |data| && data[i] == '/'
    ensures ScanName(data, i) == Failure("name contains '/'")
  {
  }

  /** The name scan over `pre / post` stops at the '/'. */
  lemma {:induction false} SlashScan(data: string, m: nat, pre: string, post: string)
    requires Spells(data, m, pre + ("/" + post)) && Nul !in pre && '/' !in pre
    ensures ScanName(data, |OctalText(m)| + 1) == Failure("name contains '/'")
  {
    var j := |OctalText(m)| + 1 + |pre|;
    NameScan(data, m, pre, "/" + post);
    assert data[j] == data[j..][0] == '/';
    SlashStops(data, j);
  }

  /** A '/' in a name is refused. */
  lemma {:induction false} NameSlashRejected(data: string, m: nat, pre: string, post: string)
    requires Spells(data, m, pre + ("/" + post)) && SupportedMode(m) && Nul !in pre && '/' !in pre
    ensures CheckTree(data) == Failure("name contains '/'")
  {
    ModeRead(data, m, pre + ("/" + post));
    SlashScan(data, m, pre, post);
    NameScanRejected(data, m, |OctalText(m)|);
  }

  /** The name scan over a name that runs to the end of the text finds no NUL. */
  lemma {:induction false} EndScan(data: string, m: nat, name: string)
    requires Spells(data, m, name) && Nul !in name && '/' !in name
    ensures ScanName(data, |OctalText(m)| + 1) == Failure("truncated in name")
  {
    assert name + [] == name;
    NameScan(data, m, name, []);
  }

  /** A name that runs to the end of the text without its NUL is refused. */
  lemma {:induction false} NameUnterminated(data: string, m: nat, name: string)
    requires Spells(data, m, name) && SupportedMode(m) && Nul !in name && '/' !in name
    ensures CheckTree(data) == Failure("truncated in name")
  {
    ModeRead(data, m, name);
    EndScan(data, m, name);
    NameScanRejected(data, m, |OctalText(m)|);
  }

  /** The mode ends at sp, and the name after it, up to the NUL at nul, is name. */
  predicate HeaderRead(data: string, mode: nat, sp: nat, nul: nat, name: string) {
    && ScanMode(data, 0, 0) == Success((mode, sp))
    && ScanName(data, sp + 1) == Success(nul) && sp + 1 <= nul && data[sp + 1..nul] == name
  }

  /** The mode of a header and its name are read up to the NUL. */
  lemma {:induction false} NameRead(data: string, m: nat, name: string, rest: string)
    requires Spells(data, m, name + ([Nul] + rest)) && m > 0 && Nul !in name && '/' !in name
    ensures HeaderRead(data, m, |OctalText(m)|, |OctalText(m)| + 1 + |name|, name)
  {
    var j := |OctalText(m)| + 1 + |name|;
    ModeRead(data, m, name + ([Nul] + rest));
    NameScan(data, m, name, [Nul] + rest);
    assert data[j] == data[j..][0] == Nul;
  }

  /** The name read after a supported mode is empty, `.` or `..`: the tree is refused. */
  lemma {:induction false} NameReadRejected(data: string, mode: nat, sp: nat, nul: nat, name: string, message: string)
    requires HeaderRead(data, mode, sp, nul, name) && SupportedMode(mode)
    requires (name == [] && message == "zero length name")
      || (name == "." && message == "invalid name '.'")
      || (name == ".." && message == "invalid name '..'")
    ensures CheckTree(data) == Failure(message)
  {
    HeaderRejected(data);
  }

  /** An empty name is refused. */
  lemma {:induction false} EmptyNameRejected(data: string, m: nat, rest: string)
    requires Spells(data, m, [Nul] + rest) && SupportedMode(m)
    ensures CheckTree(data) == Failure("zero length name")
  {
    assert [] + ([Nul] + rest) == [Nul] + rest;
    NameRead(data, m, [], rest);
    NameReadRejected(data, m, |OctalText(m)|, |OctalText(m)| + 1 + 0, [], "zero length name");
  }

  /** The name `.` is refused. */
  lemma {:induction false} DotNameRejected(data: string, m: nat, rest: string)
    requires Spells(data, m, "." + ([Nul] + rest)) && SupportedMode(m)
    ensures CheckTree(data) == Failure("invalid name '.'")
  {
    NameRead(data, m, ".", rest);
    NameReadRejected(data, m, |OctalText(m)|, |OctalText(m)| + 1 + |"."|, ".", "invalid name '.'");
  }

  /** The name `..` is refused. */
  lemma {:induction false} DotDotNameRejected(data: string, m: nat, rest: string)
    requires Spells(data, m, ".." + ([Nul] + rest)) && SupportedMode(m)
    ensures CheckTree(data) == Failure("invalid name '..'")
  {
    NameRead(data, m, "..", rest);
    NameReadRejected(data, m, |OctalText(m)|, |OctalText(m)| + 1 + |".."|, "..", "invalid name '..'");
  }

  /** A header read in full, with fewer characters than an id after it: the tree is refused. */
  lemma {:induction false} IdShortRejected(data: string, mode: nat, sp: nat, nul: nat, name: string)
    requires HeaderRead(data, mode, sp, nul, name) && SupportedMode(mode) && ValidName(name)
    requires |data| < nul + 1 + RawIdLength
    ensures CheckTree(data) == Failure("truncated in object id")
  {
    EntryHeaderAt(data, sp, nul, mode, name);
  }

  /** A valid header followed by fewer characters than an id is refused. */
  lemma {:induction false} IdTruncated(data: string, m: nat, name: string, rest: string)
    requires Spells(data, m, name + ([Nul] + rest)) && SupportedMode(m) && ValidName(name)
    requires |rest| < RawIdLength
    ensures CheckTree(data) == Failure("truncated in object id")
  {
    var d := OctalText(m);
    assert |data| == |d| + 1 + |name + ([Nul] + rest)|;
    NameRead(data, m, name, rest);
    IdShortRejected(data, m, |d|, |d| + 1 + |name|, name);
  }

  // ---------------------------------------------------------------------
  // Tree order
  // ---------------------------------------------------------------------

  /** Swapping the operands of the comparison negates it. */
  lemma {:induction false} PathCompareAntisymmetric(a: string, aMode: nat, b: string, bMode: nat)
    ensures PathCompare(a, aMode, b, bMode) == -PathCompare(b, bMode, a, aMode)
    decreases |a|
  {
    if a != [] && b != [] && a[0] == b[0] {
      PathCompareAntisymmetric(a[1..], aMode, b[1..], bMode);
    }
  }

  /** Between valid names the comparison is zero exactly when the names are equal, whatever the modes. */
  lemma {:induction false} PathCompareZero(a: string, aMode: nat, b: string, bMode: nat)
    requires forall k :: 0 <= k < |a| ==> a[k] != Nul && a[k] != '/'
    requires forall k :: 0 <= k < |b| ==> b[k] != Nul && b[k] != '/'
    ensures PathCompare(a, aMode, b, bMode) == 0 <==> a == b
    decreases |a|
  {
    if a != [] && b != [] && a[0] == b[0] {
      assert forall k :: 0 <= k < |a| - 1 ==> a[1..][k] == a[k + 1];
      assert forall k :: 0 <= k < |b| - 1 ==> b[1..][k] == b[k + 1];
      PathCompareZero(a[1..], aMode, b[1..], bMode);
      assert a == [a[0]] + a[1..] && b == [b[0]] + b[1..];
    } else if a != [] && b != [] {
      assert a[0] != b[0];
    }
  }
}
