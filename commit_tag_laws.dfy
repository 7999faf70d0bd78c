/**
 * What the commit and tag checks accept, stated as an encoding: a commit or tag is
 * accepted exactly when it is the text of a well-formed commit or tag record
 * followed by any message.
 */
module CommitTagLaws {
  import opened Wrappers
  import Text
  import opened ObjectChecker

  // ---------------------------------------------------------------------
  // Records and their text
  // ---------------------------------------------------------------------

  /** A person ident as it appears in a header: `name <email> when sign zone`. */
  datatype Ident = Ident(name: string, email: string, when: string, sign: char, zone: string)

  predicate WellFormedIdent(i: Ident) {
    && '<' !in i.name && '\n' !in i.name
    && '>' !in i.email && '\n' !in i.email
    && |i.when| >= 1 && Text.DigitsIn(i.when, 0, |i.when|)
    && (i.sign == '+' || i.sign == '-')
    && |i.zone| == 4 && Text.DigitsIn(i.zone, 0, 4)
  }

  function EncodeIdent(i: Ident): string {
    i.name + "<" + i.email + "> " + i.when + " " + [i.sign] + i.zone
  }

  /** A 40-digit hexadecimal object name. */
  predicate IsObjectName(s: string) {
    |s| == HexIdLength && HexIn(s, 0, HexIdLength)
  }

  /** A header line, `keyword value LF`, in front of the text that follows it. */
  function Line(keyword: string, value: string, rest: string): string {
    keyword + (value + ("\n" + rest))
  }

  datatype Commit = Commit(tree: string, parents: seq<string>, author: Ident, committer: Ident, message: string)

  predicate WellFormedCommit(c: Commit) {
    && IsObjectName(c.tree)
    && (forall k :: 0 <= k < |c.parents| ==> IsObjectName(c.parents[k]))
    && WellFormedIdent(c.author) && WellFormedIdent(c.committer)
  }

  /** One `parent` line per parent, in order, in front of rest. */
  function EncodeParents(ps: seq<string>, rest: string): string {
    if ps == [] then rest else Line("parent ", ps[0], EncodeParents(ps[1..], rest))
  }

  function EncodeCommit(c: Commit): string {
    Line("tree ", c.tree, EncodeParents(c.parents, Line("author ", EncodeIdent(c.author),
      Line("committer ", EncodeIdent(c.committer), c.message))))
  }

  datatype Tag = Tag(target: string, objectType: string, tagName: string, tagger: Ident, message: string)

  predicate WellFormedTag(t: Tag) {
    && IsObjectName(t.target)
    && '\n' !in t.objectType && '\n' !in t.tagName
    && WellFormedIdent(t.tagger)
  }

  function EncodeTag(t: Tag): string {
    Line("object ", t.target, Line("type ", t.objectType, Line("tag ", t.tagName,
      Line("tagger ", EncodeIdent(t.tagger), t.message))))
  }

  // ---------------------------------------------------------------------
  // Scanning helpers
  // ---------------------------------------------------------------------

  lemma {:induction false} HexInAppend(v: string, rest: string, i: nat)
    requires i <= |v|
    ensures HexIn(v + rest, i, |v|) == HexIn(v, i, |v|)
    decreases |v| - i
  {
    if i < |v| {
      HexInAppend(v, rest, i + 1);
    }
  }

  lemma IdLengthOf(v: string, rest: string)
    requires IsObjectName(v)
    ensures IdLength(v + rest) == Some(HexIdLength)
  {
    HexInAppend(v, rest, 0);
  }

  lemma IdOfLength(s: string)
    requires IdLength(s).Some?
    ensures IsObjectName(s[..HexIdLength])
  {
    assert s == s[..HexIdLength] + s[HexIdLength..];
    HexInAppend(s[..HexIdLength], s[HexIdLength..], 0);
  }

  lemma StopAt(s: string, i: nat, c: char, k: nat)
    requires i <= k < |s| && (s[k] == c || s[k] == '\n')
    requires forall m :: i <= m < k ==> s[m] != c && s[m] != '\n'
    ensures Stop(s, i, c) == k
  {
  }

  lemma DigitsEndAt(s: string, i: nat, k: nat)
    requires i <= k < |s| && !Text.IsDigit(s[k])
    requires forall m :: i <= m < k ==> Text.IsDigit(s[m])
    ensures DigitsEnd(s, i) == k
  {
  }

  /** Stop passes over a piece free of c and LF and halts at the c after it. */
  lemma StopPiece(q: string, p: string, c: char, t: string)
    requires c !in p && '\n' !in p && t != [] && t[0] == c
    ensures Stop(q + (p + t), |q|, c) == |q| + |p|
  {
    var s := q + (p + t);
    forall m | |q| <= m < |q| + |p|
      ensures s[m] != c && s[m] != '\n'
    {
      assert s[m] == p[m - |q|];
    }
    StopAt(s, |q|, c, |q| + |p|);
  }

  /** DigitsEnd passes over a run of digits and halts at the non-digit after it. */
  lemma DigitsPiece(q: string, p: string, t: string)
    requires Text.DigitsIn(p, 0, |p|) && t != [] && !Text.IsDigit(t[0])
    ensures DigitsEnd(q + (p + t), |q|) == |q| + |p|
  {
    var s := q + (p + t);
    Text.DigitsInAll(p, 0, |p|);
    forall m | |q| <= m < |q| + |p|
      ensures Text.IsDigit(s[m])
    {
      assert s[m] == p[m - |q|];
    }
    DigitsEndAt(s, |q|, |q| + |p|);
  }

  /** The positions at which IdentLength finds the parts of an ident. */
  lemma IdentLengthIs(s: string, lt: nat, gt: nat, w: nat)
    requires lt == Stop(s, 0, '<') < |s| && s[lt] == '<'
    requires gt == Stop(s, lt + 1, '>') < |s| && s[gt] == '>' && gt + 1 < |s| && s[gt + 1] == ' '
    requires w == DigitsEnd(s, gt + 2) && gt + 2 < w < |s| && s[w] == ' '
    requires w + 6 <= |s| && (s[w + 1] == '+' || s[w + 1] == '-') && Text.DigitsIn(s, w + 2, w + 6)
    ensures IdentLength(s) == Some(w + 6)
  {
  }

  /** A run of digits stays one inside a longer text. */
  lemma DigitsInPiece(q: string, p: string, t: string)
    requires Text.DigitsIn(p, 0, |p|)
    ensures Text.DigitsIn(q + (p + t), |q|, |q| + |p|)
  {
    var s := q + (p + t);
    forall m | 0 <= m < |p|
      ensures p[m] == s[m + |q|]
    {
    }
    Text.ValueInShift(p, 0, |p|, s, |q|);
  }

  /** Where IdentLength finds the '<' of an encoded ident. */
  lemma IdentOpen(i: Ident, rest: string)
    requires WellFormedIdent(i)
    ensures var s := EncodeIdent(i) + rest;
      Stop(s, 0, '<') == |i.name| < |s| && s[|i.name|] == '<'
  {
    var t1 := "<" + (i.email + "> " + i.when + " " + [i.sign] + i.zone + rest);
    assert EncodeIdent(i) + rest == i.name + t1;
    StopPiece([], i.name, '<', t1);
  }

  /** Where IdentLength finds the '>' of an encoded ident. */
  lemma IdentClose(i: Ident, rest: string)
    requires WellFormedIdent(i)
    ensures var s := EncodeIdent(i) + rest; var gt := |i.name + "<" + i.email|;
      Stop(s, |i.name| + 1, '>') == gt && gt + 1 < |s| && s[gt] == '>' && s[gt + 1] == ' '
  {
    var t2 := "> " + (i.when + " " + [i.sign] + i.zone + rest);
    var q1 := i.name + "<";
    assert EncodeIdent(i) + rest == q1 + (i.email + t2);
    StopPiece(q1, i.email, '>', t2);
  }

  /** Where IdentLength finds the end of the seconds, and that the zone is four digits after a sign. */
  lemma IdentTime(i: Ident, rest: string, gt: nat) returns (w: nat)
    requires WellFormedIdent(i)
    requires gt == |i.name + "<" + i.email|
    ensures var s := EncodeIdent(i) + rest;
      && gt + 2 <= |s| && w == DigitsEnd(s, gt + 2) && gt + 2 < w < |s| && s[w] == ' '
      && w + 6 == |EncodeIdent(i)| && (s[w + 1] == '+' || s[w + 1] == '-') && Text.DigitsIn(s, w + 2, w + 6)
  {
    var s := EncodeIdent(i) + rest;
    var t4 := i.zone + rest;
    var t3 := " " + ([i.sign] + t4);
    var q2 := i.name + "<" + i.email + "> ";
    var q3 := q2 + i.when + " " + [i.sign];
    assert s == q2 + (i.when + t3);
    DigitsPiece(q2, i.when, t3);
    w := DigitsEnd(s, gt + 2);
    assert s == q3 + t4;
    DigitsInPiece(q3, i.zone, rest);
  }

  lemma IdentLengthOf(i: Ident, rest: string)
    requires WellFormedIdent(i)
    ensures IdentLength(EncodeIdent(i) + rest) == Some(|EncodeIdent(i)|)
  {
    IdentOpen(i, rest);
    IdentClose(i, rest);
    var gt := |i.name + "<" + i.email|;
    var w := IdentTime(i, rest, gt);
    IdentLengthIs(EncodeIdent(i) + rest, |i.name|, gt, w);
  }

  /** The positions at which an accepted ident has its '<', its '>' and the space before the zone. */
  lemma IdentLengthParts(s: string) returns (lt: nat, gt: nat, w: nat)
    requires IdentLength(s).Some?
    ensures lt == Stop(s, 0, '<') < |s| && s[lt] == '<'
    ensures gt == Stop(s, lt + 1, '>') < |s| && s[gt] == '>' && gt + 1 < |s| && s[gt + 1] == ' '
    ensures w == DigitsEnd(s, gt + 2) && gt + 2 < w < |s| && s[w] == ' '
    ensures w + 6 <= |s| && (s[w + 1] == '+' || s[w + 1] == '-') && Text.DigitsIn(s, w + 2, w + 6)
    ensures IdentLength(s) == Some(w + 6)
  {
    lt := Stop(s, 0, '<');
    gt := Stop(s, lt + 1, '>');
    w := DigitsEnd(s, gt + 2);
  }

  /** The ident whose text lies at the given positions. */
  function IdentAt(s: string, lt: nat, gt: nat, w: nat): Ident
    requires lt < gt && gt + 2 <= w && w + 6 <= |s|
  {
    Ident(s[..lt], s[lt + 1..gt], s[gt + 2..w], s[w + 1], s[w + 2..w + 6])
  }

  lemma IdentAtText(s: string, lt: nat, gt: nat, w: nat)
    requires lt < gt && gt + 2 <= w && w + 6 <= |s|
    requires s[lt] == '<' && s[gt] == '>' && s[gt + 1] == ' ' && s[w] == ' '
    ensures s[..w + 6] == EncodeIdent(IdentAt(s, lt, gt, w))
  {
    var i := IdentAt(s, lt, gt, w);
    assert s[..lt + 1] == i.name + "<";
    assert s[..gt + 2] == i.name + "<" + i.email + "> ";
    assert s[..w + 2] == i.name + "<" + i.email + "> " + i.when + " " + [i.sign];
  }

  lemma IdentAtWellFormed(s: string) returns (lt: nat, gt: nat, w: nat)
    requires IdentLength(s).Some?
    ensures lt < gt && gt + 2 <= w && w + 6 <= |s|
    ensures s[lt] == '<' && s[gt] == '>' && s[gt + 1] == ' ' && s[w] == ' '
    ensures IdentLength(s) == Some(w + 6)
    ensures WellFormedIdent(IdentAt(s, lt, gt, w))
  {
    lt, gt, w := IdentLengthParts(s);
    var i := IdentAt(s, lt, gt, w);
    Text.DigitsInAll(s, gt + 2, w);
    Text.DigitsInAll(i.when, 0, |i.when|);
    Text.ValueInShift(s, w + 2, w + 6, i.zone, -(w as int + 2));
  }

  /** Reads the ident back from the text IdentLength accepts. */
  lemma IdentOfLength(s: string) returns (i: Ident)
    requires IdentLength(s).Some?
    ensures WellFormedIdent(i)
    ensures s[..IdentLength(s).value] == EncodeIdent(i)
  {
    var lt, gt, w := IdentAtWellFormed(s);
    i := IdentAt(s, lt, gt, w);
    IdentAtText(s, lt, gt, w);
  }

  lemma NoMatch(s: string, w: string)
    requires s != [] && w != [] && s[0] != w[0]
    ensures Match(s, w).None?
  {
    if |w| <= |s| {
      assert s[..|w|][0] != w[0];
    }
  }

  lemma MatchOf(w: string, t: string)
    ensures Match(w + t, w) == Some(t)
  {
    assert (w + t)[..|w|] == w;
  }

  // ---------------------------------------------------------------------
  // Header lines
  // ---------------------------------------------------------------------

  /** A field of length |v| followed by an LF is consumed with its LF. */
  lemma LineEndOf(v: string, rest: string, invalid: string)
    ensures LineEnd(v + ("\n" + rest), Some(|v|), invalid) == Success(rest)
  {
    assert (v + ("\n" + rest))[|v| + 1..] == rest;
  }

  /** What LineEnd accepts is a field, an LF and the text it returns. */
  lemma LineEndSplit(t: string, k: nat, invalid: string)
    requires LineEnd(t, Some(k), invalid).Success?
    ensures t == t[..k] + ("\n" + LineEnd(t, Some(k), invalid).value)
  {
    assert t == t[..k] + ([t[k]] + t[k + 1..]);
  }

  lemma ObjectNameHeaderOf(keyword: string, v: string, rest: string, missing: string, invalid: string)
    requires IsObjectName(v)
    ensures ObjectNameHeader(Line(keyword, v, rest), keyword, missing, invalid) == Success(rest)
  {
    MatchOf(keyword, v + ("\n" + rest));
    IdLengthOf(v, "\n" + rest);
    LineEndOf(v, rest, invalid);
  }

  lemma PersonHeaderOf(keyword: string, i: Ident, rest: string, missing: string, invalid: string)
    requires WellFormedIdent(i)
    ensures PersonHeader(Line(keyword, EncodeIdent(i), rest), keyword, missing, invalid) == Success(rest)
  {
    var v := EncodeIdent(i);
    MatchOf(keyword, v + ("\n" + rest));
    IdentLengthOf(i, "\n" + rest);
    LineEndOf(v, rest, invalid);
  }

  /** An accepted object-name header is `keyword name LF` in front of the text it returns. */
  lemma ObjectNameHeaderSplit(s: string, keyword: string, missing: string, invalid: string) returns (v: string)
    requires ObjectNameHeader(s, keyword, missing, invalid).Success?
    ensures IsObjectName(v)
    ensures s == Line(keyword, v, ObjectNameHeader(s, keyword, missing, invalid).value)
  {
    var t := Match(s, keyword).value;
    IdOfLength(t);
    v := t[..HexIdLength];
    LineEndSplit(t, HexIdLength, invalid);
  }

  /** An accepted person header is `keyword ident LF` in front of the text it returns. */
  lemma PersonHeaderSplit(s: string, keyword: string, missing: string, invalid: string) returns (i: Ident)
    requires PersonHeader(s, keyword, missing, invalid).Success?
    ensures WellFormedIdent(i)
    ensures s == Line(keyword, EncodeIdent(i), PersonHeader(s, keyword, missing, invalid).value)
  {
    var t := Match(s, keyword).value;
    i := IdentOfLength(t);
    LineEndSplit(t, IdentLength(t).value, invalid);
  }

  // ---------------------------------------------------------------------
  // Commits
  // ---------------------------------------------------------------------

  /** One parent line read, Parents goes on with what follows it. */
  lemma ParentsStep(s: string)
    requires Match(s, "parent ").Some?
    ensures Parents(s) == match ObjectNameHeader(s, "parent ", "invalid parent", "invalid parent")
      case Success(t) => Parents(t)
      case Failure(e) => Failure(e)
  {
  }

  /** A well-formed parent line in front of a run of parents that Parents reads up to rest. */
  lemma ParentsCons(p: string, tail: string, rest: string)
    requires IsObjectName(p)
    requires Parents(tail) == Success(rest)
    ensures Parents(Line("parent ", p, tail)) == Success(rest)
  {
    ObjectNameHeaderOf("parent ", p, tail, "invalid parent", "invalid parent");
    MatchOf("parent ", p + ("\n" + tail));
    ParentsStep(Line("parent ", p, tail));
  }

  lemma {:induction false} ParentsOf(ps: seq<string>, rest: string)
    requires forall k :: 0 <= k < |ps| ==> IsObjectName(ps[k])
    requires Match(rest, "parent ").None?
    ensures Parents(EncodeParents(ps, rest)) == Success(rest)
    decreases |ps|
  {
    if ps != [] {
      ParentsOf(ps[1..], rest);
      ParentsCons(ps[0], EncodeParents(ps[1..], rest), rest);
    }
  }

  lemma {:induction false} ParentsSplit(s: string) returns (ps: seq<string>)
    requires Parents(s).Success?
    ensures forall k :: 0 <= k < |ps| ==> IsObjectName(ps[k])
    ensures s == EncodeParents(ps, Parents(s).value)
    ensures Match(Parents(s).value, "parent ").None?
    decreases |s|
  {
    if Match(s, "parent ").None? {
      ps := [];
    } else {
      ParentsStep(s);
      var p := ObjectNameHeaderSplit(s, "parent ", "invalid parent", "invalid parent");
      var t := ObjectNameHeader(s, "parent ", "invalid parent", "invalid parent").value;
      var qs := ParentsSplit(t);
      ps := [p] + qs;
      assert ps[1..] == qs;
    }
  }

  /** Every well-formed commit record, followed by any message, is an accepted commit. */
  lemma CommitAccepted(c: Commit)
    requires WellFormedCommit(c)
    ensures CheckCommit(EncodeCommit(c)) == Success(())
  {
    var tail2 := Line("committer ", EncodeIdent(c.committer), c.message);
    var tail1 := Line("author ", EncodeIdent(c.author), tail2);
    ObjectNameHeaderOf("tree ", c.tree, EncodeParents(c.parents, tail1), "no tree header", "invalid tree");
    NoMatch(tail1, "parent ");
    ParentsOf(c.parents, tail1);
    PersonHeaderOf("author ", c.author, tail2, "no author", "invalid author");
    PersonHeaderOf("committer ", c.committer, c.message, "no committer", "invalid committer");
  }

  /** Every accepted commit is the text of a well-formed commit record followed by a message. */
  lemma CommitDecoded(data: string) returns (c: Commit)
    requires CheckCommit(data).Success?
    ensures WellFormedCommit(c) && EncodeCommit(c) == data
  {
    var tree := ObjectNameHeaderSplit(data, "tree ", "no tree header", "invalid tree");
    var t := ObjectNameHeader(data, "tree ", "no tree header", "invalid tree").value;
    var ps := ParentsSplit(t);
    var p := Parents(t).value;
    var author := PersonHeaderSplit(p, "author ", "no author", "invalid author");
    var a := PersonHeader(p, "author ", "no author", "invalid author").value;
    var committer := PersonHeaderSplit(a, "committer ", "no committer", "invalid committer");
    var message := PersonHeader(a, "committer ", "no committer", "invalid committer").value;
    c := Commit(tree, ps, author, committer, message);
  }

  // ---------------------------------------------------------------------
  // Tags
  // ---------------------------------------------------------------------

  lemma {:induction false} NextLFOf(v: string, rest: string)
    requires '\n' !in v
    ensures NextLF(v + ("\n" + rest)) == rest
    decreases |v|
  {
    if v == [] {
      assert ("\n" + rest)[1..] == rest;
    } else {
      assert (v + ("\n" + rest))[1..] == v[1..] + ("\n" + rest);
      NextLFOf(v[1..], rest);
    }
  }

  lemma {:induction false} NextLFSplit(s: string) returns (v: string)
    requires NextLF(s) != []
    ensures '\n' !in v && s == v + ("\n" + NextLF(s))
    decreases |s|
  {
    if s[0] == '\n' {
      v := [];
      assert s == [s[0]] + s[1..];
    } else {
      var u := NextLFSplit(s[1..]);
      v := [s[0]] + u;
      assert s == [s[0]] + s[1..];
    }
  }

  /** A `keyword value LF` line whose value holds no LF: the keyword matches and NextLF skips the line. */
  lemma FreeLineOf(keyword: string, v: string, rest: string)
    requires '\n' !in v
    ensures Match(Line(keyword, v, rest), keyword) == Some(v + ("\n" + rest))
    ensures NextLF(v + ("\n" + rest)) == rest
  {
    MatchOf(keyword, v + ("\n" + rest));
    NextLFOf(v, rest);
  }

  /** A matched keyword whose line ends in an LF: the line is `keyword value LF` in front of what NextLF returns. */
  lemma FreeLineSplit(s: string, keyword: string) returns (v: string)
    requires Match(s, keyword).Some? && NextLF(Match(s, keyword).value) != []
    ensures '\n' !in v && s == Line(keyword, v, NextLF(Match(s, keyword).value))
  {
    v := NextLFSplit(Match(s, keyword).value);
  }

  /** Every well-formed tag record, followed by any message, is an accepted tag. */
  lemma TagAccepted(t: Tag)
    requires WellFormedTag(t)
    ensures CheckTag(EncodeTag(t)) == Success(())
  {
    var tail2 := Line("tagger ", EncodeIdent(t.tagger), t.message);
    var tail1 := Line("tag ", t.tagName, tail2);
    var tail0 := Line("type ", t.objectType, tail1);
    ObjectNameHeaderOf("object ", t.target, tail0, "no object header", "invalid object");
    FreeLineOf("type ", t.objectType, tail1);
    FreeLineOf("tag ", t.tagName, tail2);
    PersonHeaderOf("tagger ", t.tagger, t.message, "no tagger header", "invalid tagger");
  }

  /** Every accepted tag is the text of a well-formed tag record followed by a message. */
  lemma TagDecoded(data: string) returns (t: Tag)
    requires CheckTag(data).Success?
    ensures WellFormedTag(t) && EncodeTag(t) == data
  {
    var target := ObjectNameHeaderSplit(data, "object ", "no object header", "invalid object");
    var o := ObjectNameHeader(data, "object ", "no object header", "invalid object").value;
    var objectType := FreeLineSplit(o, "type ");
    var ty := NextLF(Match(o, "type ").value);
    var tagName := FreeLineSplit(ty, "tag ");
    var g := NextLF(Match(ty, "tag ").value);
    var tagger := PersonHeaderSplit(g, "tagger ", "no tagger header", "invalid tagger");
    var message := PersonHeader(g, "tagger ", "no tagger header", "invalid tagger").value;
    t := Tag(target, objectType, tagName, tagger, message);
  }

  // ---------------------------------------------------------------------
  // Rejections: the first header that is missing or malformed names the diagnostic
  // ---------------------------------------------------------------------

  /** The head of t is a 40-digit object name ended by an LF. */
  predicate NameLine(t: string) {
    HexIdLength < |t| && IsObjectName(t[..HexIdLength]) && t[HexIdLength] == '\n'
  }

  /** The head of t is a person ident ended by an LF. */
  predicate IdentLine(t: string) {
    IdentLength(t).Some? && IdentLength(t).value < |t| && t[IdentLength(t).value] == '\n'
  }

  /** The value of an object-name header is accepted exactly when it is a name line. */
  lemma NameLineRead(t: string, invalid: string)
    ensures LineEnd(t, IdLength(t), invalid).Success? <==> NameLine(t)
  {
    if HexIdLength <= |t| {
      assert t == t[..HexIdLength] + t[HexIdLength..];
      HexInAppend(t[..HexIdLength], t[HexIdLength..], 0);
    }
  }

  lemma ObjectNameHeaderRejected(keyword: string, t: string, missing: string, invalid: string)
    requires !NameLine(t)
    ensures ObjectNameHeader(keyword + t, keyword, missing, invalid) == Failure(invalid)
  {
    MatchOf(keyword, t);
    NameLineRead(t, invalid);
  }

  lemma PersonHeaderRejected(keyword: string, t: string, missing: string, invalid: string)
    requires !IdentLine(t)
    ensures PersonHeader(keyword + t, keyword, missing, invalid) == Failure(invalid)
  {
    MatchOf(keyword, t);
  }

  /** A run of well-formed parent lines ending in a malformed one. */
  lemma {:induction false} ParentsRejected(ps: seq<string>, t: string)
    requires forall k :: 0 <= k < |ps| ==> IsObjectName(ps[k])
    requires !NameLine(t)
    ensures Parents(EncodeParents(ps, "parent " + t)) == Failure("invalid parent")
    decreases |ps|
  {
    if ps == [] {
      MatchOf("parent ", t);
      ObjectNameHeaderRejected("parent ", t, "invalid parent", "invalid parent");
    } else {
      var tail := EncodeParents(ps[1..], "parent " + t);
      ParentsRejected(ps[1..], t);
      ObjectNameHeaderOf("parent ", ps[0], tail, "invalid parent", "invalid parent");
      MatchOf("parent ", ps[0] + ("\n" + tail));
      ParentsStep(Line("parent ", ps[0], tail));
    }
  }

  /** A commit that does not begin with `tree `. */
  lemma CommitNoTree(data: string)
    requires Match(data, "tree ").None?
    ensures CheckCommit(data) == Failure("no tree header")
  {
  }

  lemma CommitBadTree(t: string)
    requires !NameLine(t)
    ensures CheckCommit("tree " + t) == Failure("invalid tree")
  {
    ObjectNameHeaderRejected("tree ", t, "no tree header", "invalid tree");
  }

  lemma CommitBadParent(tree: string, ps: seq<string>, t: string)
    requires IsObjectName(tree) && forall k :: 0 <= k < |ps| ==> IsObjectName(ps[k])
    requires !NameLine(t)
    ensures CheckCommit(Line("tree ", tree, EncodeParents(ps, "parent " + t))) == Failure("invalid parent")
  {
    ObjectNameHeaderOf("tree ", tree, EncodeParents(ps, "parent " + t), "no tree header", "invalid tree");
    ParentsRejected(ps, t);
  }

  /** After the parents comes a line that is neither a parent nor an author. */
  lemma CommitNoAuthor(tree: string, ps: seq<string>, rest: string)
    requires IsObjectName(tree) && forall k :: 0 <= k < |ps| ==> IsObjectName(ps[k])
    requires Match(rest, "parent ").None? && Match(rest, "author ").None?
    ensures CheckCommit(Line("tree ", tree, EncodeParents(ps, rest))) == Failure("no author")
  {
    ObjectNameHeaderOf("tree ", tree, EncodeParents(ps, rest), "no tree header", "invalid tree");
    ParentsOf(ps, rest);
  }

  lemma CommitBadAuthor(tree: string, ps: seq<string>, t: string)
    requires IsObjectName(tree) && forall k :: 0 <= k < |ps| ==> IsObjectName(ps[k])
    requires !IdentLine(t)
    ensures CheckCommit(Line("tree ", tree, EncodeParents(ps, "author " + t))) == Failure("invalid author")
  {
    var rest := "author " + t;
    ObjectNameHeaderOf("tree ", tree, EncodeParents(ps, rest), "no tree header", "invalid tree");
    NoMatch(rest, "parent ");
    ParentsOf(ps, rest);
    PersonHeaderRejected("author ", t, "no author", "invalid author");
  }

  lemma CommitNoCommitter(tree: string, ps: seq<string>, author: Ident, rest: string)
    requires IsObjectName(tree) && forall k :: 0 <= k < |ps| ==> IsObjectName(ps[k])
    requires WellFormedIdent(author) && Match(rest, "committer ").None?
    ensures CheckCommit(Line("tree ", tree, EncodeParents(ps, Line("author ", EncodeIdent(author), rest))))
      == Failure("no committer")
  {
    var tail := Line("author ", EncodeIdent(author), rest);
    ObjectNameHeaderOf("tree ", tree, EncodeParents(ps, tail), "no tree header", "invalid tree");
    NoMatch(tail, "parent ");
    ParentsOf(ps, tail);
    PersonHeaderOf("author ", author, rest, "no author", "invalid author");
  }

  lemma CommitBadCommitter(tree: string, ps: seq<string>, author: Ident, t: string)
    requires IsObjectName(tree) && forall k :: 0 <= k < |ps| ==> IsObjectName(ps[k])
    requires WellFormedIdent(author) && !IdentLine(t)
    ensures CheckCommit(Line("tree ", tree, EncodeParents(ps, Line("author ", EncodeIdent(author), "committer " + t))))
      == Failure("invalid committer")
  {
    var rest := "committer " + t;
    var tail := Line("author ", EncodeIdent(author), rest);
    ObjectNameHeaderOf("tree ", tree, EncodeParents(ps, tail), "no tree header", "invalid tree");
    NoMatch(tail, "parent ");
    ParentsOf(ps, tail);
    PersonHeaderOf("author ", author, rest, "no author", "invalid author");
    PersonHeaderRejected("committer ", t, "no committer", "invalid committer");
  }

  /** A tag that does not begin with `object `. */
  lemma TagNoObject(data: string)
    requires Match(data, "object ").None?
    ensures CheckTag(data) == Failure("no object header")
  {
  }

  lemma TagBadObject(t: string)
    requires !NameLine(t)
    ensures CheckTag("object " + t) == Failure("invalid object")
  {
    ObjectNameHeaderRejected("object ", t, "no object header", "invalid object");
  }

  lemma TagNoType(target: string, rest: string)
    requires IsObjectName(target) && Match(rest, "type ").None?
    ensures CheckTag(Line("object ", target, rest)) == Failure("no type header")
  {
    ObjectNameHeaderOf("object ", target, rest, "no object header", "invalid object");
  }

  /** The line after the type line, if there is one, does not begin with `tag `. */
  lemma TagNoTag(target: string, ty: string)
    requires IsObjectName(target) && Match(NextLF(ty), "tag ").None?
    ensures CheckTag(Line("object ", target, "type " + ty)) == Failure("no tag header")
  {
    ObjectNameHeaderOf("object ", target, "type " + ty, "no object header", "invalid object");
    MatchOf("type ", ty);
  }

  /** The line after the tag line, if there is one, does not begin with `tagger `. */
  lemma TagNoTagger(target: string, objectType: string, tg: string)
    requires IsObjectName(target) && '\n' !in objectType
    requires Match(NextLF(tg), "tagger ").None?
    ensures CheckTag(Line("object ", target, Line("type ", objectType, "tag " + tg))) == Failure("no tagger header")
  {
    var tail := "tag " + tg;
    ObjectNameHeaderOf("object ", target, Line("type ", objectType, tail), "no object header", "invalid object");
    FreeLineOf("type ", objectType, tail);
    MatchOf("tag ", tg);
  }

  lemma TagBadTagger(target: string, objectType: string, tagName: string, t: string)
    requires IsObjectName(target) && '\n' !in objectType && '\n' !in tagName
    requires !IdentLine(t)
    ensures CheckTag(Line("object ", target, Line("type ", objectType, Line("tag ", tagName, "tagger " + t))))
      == Failure("invalid tagger")
  {
    var tail1 := "tagger " + t;
    var tail0 := Line("tag ", tagName, tail1);
    ObjectNameHeaderOf("object ", target, Line("type ", objectType, tail0), "no object header", "invalid object");
    FreeLineOf("type ", objectType, tail0);
    FreeLineOf("tag ", tagName, tail1);
    PersonHeaderRejected("tagger ", t, "no tagger header", "invalid tagger");
  }

  // ---------------------------------------------------------------------
  // Idents IdentLength refuses
  // ---------------------------------------------------------------------

  /** Stop passes over a piece free of c and LF and halts at the end or at the c or LF after it. */
  lemma StopPieceEnd(q: string, p: string, c: char, t: string)
    requires c !in p && '\n' !in p && (t == [] || t[0] == c || t[0] == '\n')
    ensures Stop(q + (p + t), |q|, c) == |q| + |p|
  {
    var s := q + (p + t);
    forall m | |q| <= m < |q| + |p|
      ensures s[m] != c && s[m] != '\n'
    {
      assert s[m] == p[m - |q|];
    }
    if t != [] {
      assert s[|q| + |p|] == t[0];
    }
  }

  lemma IdentRefusedOpen(s: string)
    requires Stop(s, 0, '<') == |s| || s[Stop(s, 0, '<')] != '<'
    ensures IdentLength(s).None?
  {
  }

  lemma IdentRefusedClose(s: string, lt: nat)
    requires lt == Stop(s, 0, '<') < |s| && s[lt] == '<'
    requires Stop(s, lt + 1, '>') == |s| || s[Stop(s, lt + 1, '>')] != '>'
    ensures IdentLength(s).None?
  {
  }

  lemma IdentRefusedTime(s: string, lt: nat, gt: nat)
    requires lt == Stop(s, 0, '<') < |s| && s[lt] == '<'
    requires gt == Stop(s, lt + 1, '>') < |s| && s[gt] == '>'
    requires gt + 1 == |s| || s[gt + 1] != ' ' || gt + 2 == |s| || !Text.IsDigit(s[gt + 2])
    ensures IdentLength(s).None?
  {
  }

  lemma IdentRefusedZone(s: string, lt: nat, gt: nat, w: nat)
    requires lt == Stop(s, 0, '<') < |s| && s[lt] == '<'
    requires gt == Stop(s, lt + 1, '>') && gt + 1 < |s| && s[gt] == '>' && s[gt + 1] == ' '
    requires w == DigitsEnd(s, gt + 2) && w < |s| && s[w] == ' '
    requires |s| < w + 6 || (s[w + 1] != '+' && s[w + 1] != '-')
    ensures IdentLength(s).None?
  {
  }

  /** No '<' before the first LF or the end. */
  lemma IdentNoOpen(p: string, r: string)
    requires '<' !in p && '\n' !in p && (r == [] || r[0] == '\n')
    ensures IdentLength(p + r).None?
  {
    var s := p + r;
    assert [] + s == s;
    StopPieceEnd([], p, '<', r);
    if r != [] {
      assert s[|p|] == r[0];
    }
    IdentRefusedOpen(s);
  }

  /** A '<', but no '>' after it before the first LF or the end. */
  lemma IdentNoClose(p: string, q: string, r: string)
    requires '<' !in p && '\n' !in p && '>' !in q && '\n' !in q && (r == [] || r[0] == '\n')
    ensures IdentLength(p + ("<" + (q + r))).None?
  {
    var s := p + ("<" + (q + r));
    assert [] + s == s;
    StopPiece([], p, '<', "<" + (q + r));
    assert s == (p + "<") + (q + r);
    StopPieceEnd(p + "<", q, '>', r);
    if r != [] {
      assert s[|p| + 1 + |q|] == r[0];
    }
    IdentRefusedClose(s, |p|);
  }

  lemma Associative(a: string, b: string, c: string)
    ensures (a + b) + c == a + (b + c)
  {
  }

  lemma DropAppend(a: string, b: string, k: nat)
    requires k <= |b|
    ensures (a + b)[|a| + k..] == b[k..]
  {
  }

  /** What follows the '>' of `p<q>rest`. */
  lemma AfterBrackets(p: string, q: string, rest: string)
    ensures (p + ("<" + (q + (">" + rest))))[|p| + 1 + |q| + 1..] == rest
  {
    DropAppend(p, "<" + (q + (">" + rest)), 1 + |q| + 1);
    DropAppend("<", q + (">" + rest), |q| + 1);
    DropAppend(q, ">" + rest, 1);
    DropAppend(">", rest, 0);
  }

  /** Where IdentLength finds the '<' and the '>' of `p<q>rest`, and what follows the '>'. */
  lemma BracketsAt(p: string, q: string, rest: string)
    requires '<' !in p && '\n' !in p && '>' !in q && '\n' !in q
    ensures var s := p + ("<" + (q + (">" + rest))); var gt := |p| + 1 + |q|;
      && Stop(s, 0, '<') == |p| && s[|p|] == '<'
      && Stop(s, |p| + 1, '>') == gt && s[gt] == '>'
  {
    var s := p + ("<" + (q + (">" + rest)));
    assert [] + s == s;
    StopPiece([], p, '<', "<" + (q + (">" + rest)));
    Associative(p, "<", q + (">" + rest));
    StopPiece(p + "<", q, '>', ">" + rest);
  }

  lemma IdentRefusedAfterClose(s: string, lt: nat, gt: nat, r: string)
    requires lt == Stop(s, 0, '<') < |s| && s[lt] == '<'
    requires gt == Stop(s, lt + 1, '>') < |s| && s[gt] == '>' && s[gt + 1..] == r
    requires r == [] || r[0] != ' ' || |r| == 1 || !Text.IsDigit(r[1])
    ensures IdentLength(s).None?
  {
    if gt + 1 < |s| {
      assert s[gt + 1] == r[0];
      if gt + 2 < |s| {
        assert s[gt + 2] == r[1];
      }
    }
    IdentRefusedTime(s, lt, gt);
  }

  /** The '>' is not followed by a space and a digit. */
  lemma IdentNoTime(p: string, q: string, r: string)
    requires '<' !in p && '\n' !in p && '>' !in q && '\n' !in q
    requires r == [] || r[0] != ' ' || |r| == 1 || !Text.IsDigit(r[1])
    ensures IdentLength(p + ("<" + (q + (">" + r)))).None?
  {
    BracketsAt(p, q, r);
    AfterBrackets(p, q, r);
    IdentRefusedAfterClose(p + ("<" + (q + (">" + r))), |p|, |p| + 1 + |q|, r);
  }

  /** Where DigitsEnd stops in the text ` d SP z` that follows position i. */
  lemma SecondsAfter(s: string, i: nat, d: string, z: string)
    requires i < |s| && s[i..] == " " + (d + (" " + z))
    requires Text.DigitsIn(d, 0, |d|)
    ensures DigitsEnd(s, i + 1) == i + 1 + |d| && s[i + 1 + |d|..] == " " + z
  {
    var r := " " + (d + (" " + z));
    Text.DigitsInAll(d, 0, |d|);
    forall m | i + 1 <= m < i + 1 + |d|
      ensures Text.IsDigit(s[m])
    {
      assert s[m] == r[m - i] == d[m - i - 1];
    }
    assert s[i + 1 + |d|] == r[1 + |d|] == ' ';
    DigitsEndAt(s, i + 1, i + 1 + |d|);
    DropAppend(" ", d + (" " + z), |d|);
    DropAppend(d, " " + z, 0);
    assert s[i + 1 + |d|..] == r[1 + |d|..];
  }

  lemma IdentRefusedAfterSeconds(s: string, lt: nat, gt: nat, w: nat, z: string)
    requires lt == Stop(s, 0, '<') < |s| && s[lt] == '<'
    requires gt == Stop(s, lt + 1, '>') && gt + 1 < |s| && s[gt] == '>' && s[gt + 1] == ' '
    requires w == DigitsEnd(s, gt + 2) <= |s| && s[w..] == " " + z
    requires |z| < 5 || (z[0] != '+' && z[0] != '-')
    ensures IdentLength(s).None?
  {
    assert s[w] == ' ';
    if w + 1 < |s| {
      assert s[w + 1] == z[0];
    }
    IdentRefusedZone(s, lt, gt, w);
  }

  /** IdentLength finds the '<' at lt and the '>' at gt. */
  predicate Brackets(s: string, lt: nat, gt: nat) {
    && lt == Stop(s, 0, '<') < |s| && s[lt] == '<'
    && gt == Stop(s, lt + 1, '>') < |s| && s[gt] == '>'
  }

  /** `p<q>rest` has its brackets where p and q put them, and rest after the '>'. */
  lemma Bracketed(p: string, q: string, rest: string)
    requires '<' !in p && '\n' !in p && '>' !in q && '\n' !in q
    ensures var s := p + ("<" + (q + (">" + rest)));
      Brackets(s, |p|, |p| + 1 + |q|) && s[|p| + 1 + |q| + 1..] == rest
  {
    BracketsAt(p, q, rest);
    AfterBrackets(p, q, rest);
  }

  /** After the brackets, seconds and a space, then fewer than five characters or no sign. */
  lemma ZoneAfter(s: string, lt: nat, gt: nat, d: string, z: string)
    requires Brackets(s, lt, gt) && s[gt + 1..] == " " + (d + (" " + z))
    requires Text.DigitsIn(d, 0, |d|)
    requires |z| < 5 || (z[0] != '+' && z[0] != '-')
    ensures IdentLength(s).None?
  {
    SecondsAfter(s, gt + 1, d, z);
    IdentRefusedAfterSeconds(s, lt, gt, gt + 2 + |d|, z);
  }

  /** The seconds are followed by a space and then by fewer than five characters, or by no sign. */
  lemma IdentNoZone(p: string, q: string, d: string, z: string)
    requires '<' !in p && '\n' !in p && '>' !in q && '\n' !in q
    requires d != [] && Text.DigitsIn(d, 0, |d|)
    requires |z| < 5 || (z[0] != '+' && z[0] != '-')
    ensures IdentLength(p + ("<" + (q + (">" + (" " + (d + (" " + z))))))).None?
  {
    Bracketed(p, q, " " + (d + (" " + z)));
    ZoneAfter(p + ("<" + (q + (">" + (" " + (d + (" " + z)))))), |p|, |p| + 1 + |q|, d, z);
  }
}
