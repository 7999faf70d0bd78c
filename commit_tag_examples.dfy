/**
 * The commit, tag and blob vectors of the object checker's test suite. A payload
 * built by appending `keyword`, a value and an LF is written `Line(keyword, value, rest)`;
 * appended pieces that are not whole lines are written with `+`.
 */
module CommitTagExamples {
  import opened Wrappers
  import Text
  import opened ObjectChecker
  import opened CommitTagLaws

  /** The object name the vectors use for every tree, parent and tagged object. */
  const Id: string := "be9bfa8418" + "74ccc9f2ef" + "7c48d0c762" + "26f89b7189"

  /** The same name with its first four digits spoilt. */
  const BadId: string := "zzzzfa841874ccc9f2ef7c48d0c76226f89b7189"

  /** The ident of the valid vectors, `A. U. Thor <author@localhost> 1 +0000`. */
  const Thor: Ident := Ident("A. U. Thor ", "author@localhost", "1", '+', "0000")

  // ---------------------------------------------------------------------
  // Helpers
  // ---------------------------------------------------------------------

  lemma {:induction false} HexInJoin(s: string, i: nat, k: nat, j: nat)
    requires i <= k <= j <= |s| && HexIn(s, i, k) && HexIn(s, k, j)
    ensures HexIn(s, i, j)
    decreases k - i
  {
    if i < k {
      HexInJoin(s, i + 1, k, j);
    }
  }

  lemma {:induction false} HexInShift(a: string, b: string, i: nat)
    requires i <= |b| && HexIn(b, i, |b|)
    ensures HexIn(a + b, |a| + i, |a| + |b|)
    decreases |b| - i
  {
    if i < |b| {
      HexInShift(a, b, i + 1);
      assert (a + b)[|a| + i] == b[i];
    }
  }

  /** Two runs of hexadecimal digits make one. */
  lemma HexInConcat(a: string, b: string)
    requires HexIn(a, 0, |a|) && HexIn(b, 0, |b|)
    ensures HexIn(a + b, 0, |a + b|)
  {
    HexInAppend(a, b, 0);
    HexInShift(a, b, 0);
    HexInJoin(a + b, 0, |a|, |a| + |b|);
  }

  lemma IdIsName()
    ensures IsObjectName(Id)
  {
    assert HexIn("be9bfa8418", 0, 10);
    assert HexIn("74ccc9f2ef", 0, 10);
    assert HexIn("7c48d0c762", 0, 10);
    assert HexIn("26f89b7189", 0, 10);
    HexInConcat("be9bfa8418", "74ccc9f2ef");
    HexInConcat("be9bfa8418" + "74ccc9f2ef", "7c48d0c762");
    HexInConcat("be9bfa8418" + "74ccc9f2ef" + "7c48d0c762", "26f89b7189");
  }

  lemma ThorName()
    ensures '<' !in Thor.name && '\n' !in Thor.name
  {
  }

  lemma ThorEmail()
    ensures '>' !in Thor.email && '\n' !in Thor.email
  {
  }

  lemma ThorWellFormed()
    ensures WellFormedIdent(Thor)
  {
    ThorName();
    ThorEmail();
    assert Text.DigitsIn(Thor.zone, 0, 4);
  }

  lemma ThorText()
    ensures EncodeIdent(Thor) == "A. U. Thor <author@localhost> 1 +0000"
  {
  }

  /** The ident of the vector with ten digits of seconds and a negative zone. */
  const NormalThor: Ident := Ident("A. U. Thor ", "author@localhost", "1222757360", '-', "0730")

  lemma NormalTimeWellFormed()
    ensures WellFormedIdent(NormalThor)
  {
    ThorName();
    ThorEmail();
    assert Text.DigitsIn(NormalThor.when, 0, 10);
    assert Text.DigitsIn(NormalThor.zone, 0, 4);
  }

  lemma NormalTimeText()
    ensures WellFormedIdent(NormalThor)
    ensures EncodeIdent(NormalThor) == "A. U. Thor <author@localhost> " + "1222757360 -0730"
  {
    NormalTimeWellFormed();
  }

  lemma OneParent(p: string, rest: string)
    ensures EncodeParents([p], rest) == Line("parent ", p, rest)
  {
    assert [p][1..] == [];
  }

  lemma {:induction false} ParentsAppend(ps: seq<string>, qs: seq<string>, rest: string)
    ensures EncodeParents(ps + qs, rest) == EncodeParents(ps, EncodeParents(qs, rest))
    decreases |ps|
  {
    if ps != [] {
      assert (ps + qs)[1..] == ps[1..] + qs;
      ParentsAppend(ps[1..], qs, rest);
    } else {
      assert ps + qs == qs;
    }
  }

  /** A keyword that differs from the text at position k does not match it. */
  lemma MatchDiffers(s: string, w: string, k: nat)
    requires k < |w| && k < |s| && s[k] != w[k]
    ensures Match(s, w).None?
  {
    if |w| <= |s| {
      assert s[..|w|][k] == s[k];
    }
  }

  /** A header value whose first character is not a hexadecimal digit. */
  lemma NotNameFirst(t: string)
    requires t != [] && !IsHex(t[0])
    ensures !NameLine(t)
  {
    if HexIdLength < |t| {
      assert t[..HexIdLength][0] == t[0];
    }
  }

  lemma {:induction false} NextLFNone(s: string)
    requires '\n' !in s
    ensures NextLF(s) == []
    decreases |s|
  {
    if s != [] {
      assert s[1..] == s[1..] && '\n' !in s[1..];
      NextLFNone(s[1..]);
    }
  }

  // ---------------------------------------------------------------------
  // Valid commits
  // ---------------------------------------------------------------------

  lemma ValidCommitNoParent()
    ensures var data := Line("tree ", Id,
      Line("author ", "A. U. Thor <author@localhost> 1 +0000",
      Line("committer ", "A. U. Thor <author@localhost> 1 +0000", "")));
      CheckCommit(data) == Success(()) && Check(ObjCommit, data) == Success(())
  {
    IdIsName();
    ThorWellFormed();
    ThorText();
    CommitAccepted(Commit(Id, [], Thor, Thor, ""));
  }

  lemma ValidCommit1Parent()
    ensures var data := Line("tree ", Id, Line("parent ", Id,
      Line("author ", "A. U. Thor <author@localhost> 1 +0000",
      Line("committer ", "A. U. Thor <author@localhost> 1 +0000", ""))));
      CheckCommit(data) == Success(()) && Check(ObjCommit, data) == Success(())
  {
    IdIsName();
    ThorWellFormed();
    ThorText();
    var tail := Line("author ", EncodeIdent(Thor), Line("committer ", EncodeIdent(Thor), ""));
    OneParent(Id, tail);
    CommitAccepted(Commit(Id, [Id], Thor, Thor, ""));
  }

  lemma ValidCommit2Parent()
    ensures var data := Line("tree ", Id, Line("parent ", Id, Line("parent ", Id,
      Line("author ", "A. U. Thor <author@localhost> 1 +0000",
      Line("committer ", "A. U. Thor <author@localhost> 1 +0000", "")))));
      CheckCommit(data) == Success(()) && Check(ObjCommit, data) == Success(())
  {
    IdIsName();
    ThorWellFormed();
    ThorText();
    var tail := Line("author ", EncodeIdent(Thor), Line("committer ", EncodeIdent(Thor), ""));
    OneParent(Id, tail);
    OneParent(Id, Line("parent ", Id, tail));
    assert [Id, Id] == [Id] + [Id];
    ParentsAppend([Id], [Id], tail);
    CommitAccepted(Commit(Id, [Id, Id], Thor, Thor, ""));
  }

  /** 128 parent lines, each naming Id. */
  lemma ValidCommit128Parent()
    ensures var data := Line("tree ", Id, EncodeParents(seq(128, _ => Id),
      Line("author ", "A. U. Thor <author@localhost> 1 +0000",
      Line("committer ", "A. U. Thor <author@localhost> 1 +0000", ""))));
      CheckCommit(data) == Success(()) && Check(ObjCommit, data) == Success(())
  {
    IdIsName();
    ThorWellFormed();
    ThorText();
    CommitAccepted(Commit(Id, seq(128, _ => Id), Thor, Thor, ""));
  }

  lemma ValidCommitBlankAuthor()
    ensures var data := Line("tree ", Id, Line("author ", "<> 0 +0000", Line("committer ", "<> 0 +0000", "")));
      CheckCommit(data) == Success(()) && Check(ObjCommit, data) == Success(())
  {
    IdIsName();
    var blank := Ident("", "", "0", '+', "0000");
    assert EncodeIdent(blank) == "<> 0 +0000";
    assert Text.DigitsIn(blank.zone, 0, 4);
    CommitAccepted(Commit(Id, [], blank, blank, ""));
  }

  /** An ident with ten digits of seconds and a negative zone. */
  lemma ValidCommitNormalTime()
    ensures var data := Line("tree ", Id,
      Line("author ", "A. U. Thor <author@localhost> " + "1222757360 -0730",
      Line("committer ", "A. U. Thor <author@localhost> " + "1222757360 -0730", "")));
      CheckCommit(data) == Success(()) && Check(ObjCommit, data) == Success(())
  {
    IdIsName();
    NormalTimeText();
    CommitAccepted(Commit(Id, [], NormalThor, NormalThor, ""));
  }

  // ---------------------------------------------------------------------
  // Commits without a tree header, or with a malformed one
  // ---------------------------------------------------------------------

  lemma InvalidCommitNoTree1()
    ensures CheckCommit(Line("parent ", Id, "")) == Failure("no tree header")
  {
    MatchDiffers(Line("parent ", Id, ""), "tree ", 0);
    CommitNoTree(Line("parent ", Id, ""));
  }

  lemma InvalidCommitNoTree2()
    ensures CheckCommit(Line("trie ", Id, "")) == Failure("no tree header")
  {
    MatchDiffers(Line("trie ", Id, ""), "tree ", 2);
    CommitNoTree(Line("trie ", Id, ""));
  }

  lemma InvalidCommitNoTree3()
    ensures CheckCommit(Line("tree", Id, "")) == Failure("no tree header")
  {
    MatchDiffers(Line("tree", Id, ""), "tree ", 4);
    CommitNoTree(Line("tree", Id, ""));
  }

  lemma InvalidCommitNoTree4()
    ensures CheckCommit(Line("tree\t", Id, "")) == Failure("no tree header")
  {
    MatchDiffers(Line("tree\t", Id, ""), "tree ", 4);
    CommitNoTree(Line("tree\t", Id, ""));
  }

  lemma InvalidCommitInvalidTree1()
    ensures CheckCommit(Line("tree ", BadId, "")) == Failure("invalid tree")
  {
    NotNameFirst(BadId + ("\n" + ""));
    CommitBadTree(BadId + ("\n" + ""));
  }

  lemma InvalidCommitInvalidTree2()
    ensures CheckCommit(Line("tree ", Id + "z", "")) == Failure("invalid tree")
  {
    var t := (Id + "z") + ("\n" + "");
    assert t[HexIdLength] == 'z';
    CommitBadTree(t);
  }

  lemma InvalidCommitInvalidTree3()
    ensures CheckCommit(Line("tree ", "be9b", "")) == Failure("invalid tree")
  {
    CommitBadTree("be9b" + ("\n" + ""));
  }

  lemma InvalidCommitInvalidTree4()
    ensures CheckCommit(Line("tree ", " " + Id, "")) == Failure("invalid tree")
  {
    NotNameFirst((" " + Id) + ("\n" + ""));
    CommitBadTree((" " + Id) + ("\n" + ""));
  }

  // ---------------------------------------------------------------------
  // Malformed parents
  // ---------------------------------------------------------------------

  lemma InvalidCommitInvalidParent1()
    ensures CheckCommit(Line("tree ", Id, "parent " + "\n")) == Failure("invalid parent")
  {
    IdIsName();
    CommitBadParent(Id, [], "\n");
  }

  lemma InvalidCommitInvalidParent2()
    ensures CheckCommit(Line("tree ", Id, Line("parent ", BadId, ""))) == Failure("invalid parent")
  {
    IdIsName();
    NotNameFirst(BadId + ("\n" + ""));
    CommitBadParent(Id, [], BadId + ("\n" + ""));
  }

  lemma InvalidCommitInvalidParent3()
    ensures CheckCommit(Line("tree ", Id, Line("parent ", " " + Id, ""))) == Failure("invalid parent")
  {
    IdIsName();
    NotNameFirst((" " + Id) + ("\n" + ""));
    CommitBadParent(Id, [], (" " + Id) + ("\n" + ""));
  }

  lemma InvalidCommitInvalidParent4()
    ensures CheckCommit(Line("tree ", Id, Line("parent ", " " + Id + "z", ""))) == Failure("invalid parent")
  {
    IdIsName();
    NotNameFirst((" " + Id + "z") + ("\n" + ""));
    CommitBadParent(Id, [], (" " + Id + "z") + ("\n" + ""));
  }

  /** `parent` followed by a tab is not a parent line, and so the author is missing. */
  lemma InvalidCommitInvalidParent5()
    ensures CheckCommit(Line("tree ", Id, Line("parent\t", Id, ""))) == Failure("no author")
  {
    IdIsName();
    var rest := Line("parent\t", Id, "");
    MatchDiffers(rest, "parent ", 6);
    MatchDiffers(rest, "author ", 0);
    CommitNoAuthor(Id, [], rest);
  }

  // ---------------------------------------------------------------------
  // Missing or malformed author and committer
  // ---------------------------------------------------------------------

  lemma InvalidCommitNoAuthor()
    ensures CheckCommit(Line("tree ", Id, Line("committer ", "A. U. Thor <author@localhost> 1 +0000", "")))
      == Failure("no author")
  {
    IdIsName();
    var rest := Line("committer ", "A. U. Thor <author@localhost> 1 +0000", "");
    MatchDiffers(rest, "parent ", 0);
    MatchDiffers(rest, "author ", 0);
    CommitNoAuthor(Id, [], rest);
  }

  lemma InvalidCommitNoCommitter1()
    ensures CheckCommit(Line("tree ", Id, Line("author ", "A. U. Thor <author@localhost> 1 +0000", "")))
      == Failure("no committer")
  {
    IdIsName();
    ThorWellFormed();
    ThorText();
    CommitNoCommitter(Id, [], Thor, "");
  }

  lemma InvalidCommitNoCommitter2()
    ensures CheckCommit(Line("tree ", Id, Line("author ", "A. U. Thor <author@localhost> 1 +0000", "\n")))
      == Failure("no committer")
  {
    IdIsName();
    ThorWellFormed();
    ThorText();
    MatchDiffers("\n", "committer ", 0);
    CommitNoCommitter(Id, [], Thor, "\n");
  }

  lemma InvalidCommitInvalidAuthor1()
    ensures CheckCommit(Line("tree ", Id, Line("author ", "A. U. Thor " + "<" + "foo 1 +0000", "")))
      == Failure("invalid author")
  {
    IdIsName();
    var t := ("A. U. Thor " + "<" + "foo 1 +0000") + ("\n" + "");
    assert t == "A. U. Thor " + ("<" + ("foo 1 +0000" + ("\n" + "")));
    IdentNoClose("A. U. Thor ", "foo 1 +0000", "\n" + "");
    CommitBadAuthor(Id, [], t);
  }

  lemma InvalidCommitInvalidAuthor2()
    ensures CheckCommit(Line("tree ", Id, Line("author ", "A. U. Thor foo> 1 +0000", "")))
      == Failure("invalid author")
  {
    IdIsName();
    assert '<' !in "A. U. Thor foo> 1 +0000" && '\n' !in "A. U. Thor foo> 1 +0000";
    IdentNoOpen("A. U. Thor foo> 1 +0000", "\n" + "");
    CommitBadAuthor(Id, [], "A. U. Thor foo> 1 +0000" + ("\n" + ""));
  }

  lemma InvalidCommitInvalidAuthor3()
    ensures CheckCommit(Line("tree ", Id, Line("author ", "1 +0000", ""))) == Failure("invalid author")
  {
    IdIsName();
    IdentNoOpen("1 +0000", "\n" + "");
    CommitBadAuthor(Id, [], "1 +0000" + ("\n" + ""));
  }

  lemma InvalidCommitInvalidAuthor4()
    ensures CheckCommit(Line("tree ", Id, Line("author ", "a <b> +0000", ""))) == Failure("invalid author")
  {
    IdIsName();
    var t := "a <b> +0000" + ("\n" + "");
    assert t == "a " + ("<" + ("b" + (">" + " +0000\n")));
    IdentNoTime("a ", "b", " +0000\n");
    CommitBadAuthor(Id, [], t);
  }

  lemma InvalidCommitInvalidAuthor5()
    ensures CheckCommit(Line("tree ", Id, Line("author ", "a <b>", ""))) == Failure("invalid author")
  {
    IdIsName();
    var t := "a <b>" + ("\n" + "");
    assert t == "a " + ("<" + ("b" + (">" + "\n")));
    IdentNoTime("a ", "b", "\n");
    CommitBadAuthor(Id, [], t);
  }

  /** An author line with no LF at all. */
  lemma InvalidCommitInvalidAuthor6()
    ensures CheckCommit(Line("tree ", Id, "author " + "a <b> z")) == Failure("invalid author")
  {
    IdIsName();
    assert "a <b> z" == "a " + ("<" + ("b" + (">" + " z")));
    IdentNoTime("a ", "b", " z");
    CommitBadAuthor(Id, [], "a <b> z");
  }

  lemma InvalidCommitInvalidAuthor7()
    ensures CheckCommit(Line("tree ", Id, "author " + "a <b> 1 z")) == Failure("invalid author")
  {
    IdIsName();
    assert "a <b> 1 z" == "a " + ("<" + ("b" + (">" + (" " + ("1" + (" " + "z"))))));
    IdentNoZone("a ", "b", "1", "z");
    CommitBadAuthor(Id, [], "a <b> 1 z");
  }

  lemma InvalidCommitInvalidCommitter()
    ensures CheckCommit(Line("tree ", Id, Line("author ", "a <b> 1 +0000", "committer " + "a <")))
      == Failure("invalid committer")
  {
    IdIsName();
    var author := Ident("a ", "b", "1", '+', "0000");
    assert EncodeIdent(author) == "a <b> 1 +0000";
    assert Text.DigitsIn(author.zone, 0, 4);
    assert "a <" == "a " + ("<" + ("" + ""));
    IdentNoClose("a ", "", "");
    CommitBadCommitter(Id, [], author, "a <");
  }

  // ---------------------------------------------------------------------
  // Tags
  // ---------------------------------------------------------------------

  lemma ValidTag()
    ensures var data := Line("object ", Id, Line("type ", "commit", Line("tag ", "test-tag",
      Line("tagger ", "A. U. Thor <author@localhost> 1 +0000", ""))));
      CheckTag(data) == Success(()) && Check(ObjTag, data) == Success(())
  {
    IdIsName();
    ThorWellFormed();
    ThorText();
    TagAccepted(Tag(Id, "commit", "test-tag", Thor, ""));
  }

  lemma InvalidTagNoObject1()
    ensures CheckTag([]) == Failure("no object header")
  {
    TagNoObject([]);
  }

  lemma InvalidTagNoObject2()
    ensures CheckTag(Line("object\t", Id, "")) == Failure("no object header")
  {
    MatchDiffers(Line("object\t", Id, ""), "object ", 6);
    TagNoObject(Line("object\t", Id, ""));
  }

  lemma InvalidTagNoObject3()
    ensures CheckTag(Line("obejct ", Id, "")) == Failure("no object header")
  {
    MatchDiffers(Line("obejct ", Id, ""), "object ", 2);
    TagNoObject(Line("obejct ", Id, ""));
  }

  lemma InvalidTagNoObject4()
    ensures CheckTag(Line("object ", "zz9bfa841874ccc9f2ef7c48d0c76226f89b7189", "")) == Failure("invalid object")
  {
    var t := "zz9bfa841874ccc9f2ef7c48d0c76226f89b7189" + ("\n" + "");
    NotNameFirst(t);
    TagBadObject(t);
  }

  lemma InvalidTagNoObject5()
    ensures CheckTag(Line("object ", Id + " ", "")) == Failure("invalid object")
  {
    var t := (Id + " ") + ("\n" + "");
    assert t[HexIdLength] == ' ';
    TagBadObject(t);
  }

  /** An object header cut short, with no LF. */
  lemma InvalidTagNoObject6()
    ensures CheckTag("object " + "be9") == Failure("invalid object")
  {
    TagBadObject("be9");
  }

  lemma InvalidTagNoType1()
    ensures CheckTag(Line("object ", Id, "")) == Failure("no type header")
  {
    IdIsName();
    TagNoType(Id, "");
  }

  lemma InvalidTagNoType2()
    ensures CheckTag(Line("object ", Id, Line("type\t", "commit", ""))) == Failure("no type header")
  {
    IdIsName();
    MatchDiffers(Line("type\t", "commit", ""), "type ", 4);
    TagNoType(Id, Line("type\t", "commit", ""));
  }

  lemma InvalidTagNoType3()
    ensures CheckTag(Line("object ", Id, Line("tpye ", "commit", ""))) == Failure("no type header")
  {
    IdIsName();
    MatchDiffers(Line("tpye ", "commit", ""), "type ", 1);
    TagNoType(Id, Line("tpye ", "commit", ""));
  }

  /** A type line without its LF: there is no line after it, so no tag header. */
  lemma InvalidTagNoType4()
    ensures CheckTag(Line("object ", Id, "type " + "commit")) == Failure("no tag header")
  {
    IdIsName();
    NextLFNone("commit");
    TagNoTag(Id, "commit");
  }

  lemma InvalidTagNoTagHeader1()
    ensures CheckTag(Line("object ", Id, Line("type ", "commit", ""))) == Failure("no tag header")
  {
    IdIsName();
    NextLFOf("commit", "");
    TagNoTag(Id, "commit" + ("\n" + ""));
  }

  lemma InvalidTagNoTagHeader2()
    ensures CheckTag(Line("object ", Id, Line("type ", "commit", Line("tag\t", "foo", ""))))
      == Failure("no tag header")
  {
    IdIsName();
    var rest := Line("tag\t", "foo", "");
    NextLFOf("commit", rest);
    MatchDiffers(rest, "tag ", 3);
    TagNoTag(Id, "commit" + ("\n" + rest));
  }

  lemma InvalidTagNoTagHeader3()
    ensures CheckTag(Line("object ", Id, Line("type ", "commit", Line("tga ", "foo", ""))))
      == Failure("no tag header")
  {
    IdIsName();
    var rest := Line("tga ", "foo", "");
    NextLFOf("commit", rest);
    MatchDiffers(rest, "tag ", 1);
    TagNoTag(Id, "commit" + ("\n" + rest));
  }

  /** A tag line without its LF: there is no line after it, so no tagger header. */
  lemma InvalidTagNoTagHeader4()
    ensures CheckTag(Line("object ", Id, Line("type ", "commit", "tag " + "foo"))) == Failure("no tagger header")
  {
    IdIsName();
    NextLFNone("foo");
    TagNoTagger(Id, "commit", "foo");
  }

  lemma InvalidTagNoTaggerHeader1()
    ensures CheckTag(Line("object ", Id, Line("type ", "commit", Line("tag ", "foo", ""))))
      == Failure("no tagger header")
  {
    IdIsName();
    NextLFOf("foo", "");
    TagNoTagger(Id, "commit", "foo" + ("\n" + ""));
  }

  lemma InvalidTagInvalidTaggerHeader1()
    ensures CheckTag(Line("object ", Id, Line("type ", "commit", Line("tag ", "foo", "tagger " + "\n"))))
      == Failure("invalid tagger")
  {
    IdIsName();
    assert [] + "\n" == "\n";
    IdentNoOpen([], "\n");
    TagBadTagger(Id, "commit", "foo", "\n");
  }

  lemma InvalidTagInvalidTaggerHeader3()
    ensures CheckTag(Line("object ", Id, Line("type ", "commit", Line("tag ", "foo", Line("tagger ", "a < 1 +000", "")))))
      == Failure("invalid tagger")
  {
    IdIsName();
    var t := "a < 1 +000" + ("\n" + "");
    assert t == "a " + ("<" + (" 1 +000" + "\n"));
    IdentNoClose("a ", " 1 +000", "\n");
    TagBadTagger(Id, "commit", "foo", t);
  }

  // ---------------------------------------------------------------------
  // Blobs and the type dispatch
  // ---------------------------------------------------------------------

  /** Any blob passes, through checkBlob and through check with the blob type. */
  lemma CheckBlobAny(data: string)
    ensures CheckBlob(data) == Success(()) && Check(ObjBlob, data) == Success(())
  {
  }

  lemma InvalidType()
    ensures Check(ObjBad, []) == Failure("Invalid object type: " + "-1")
  {
    assert Text.NatToString(1) == [Text.DigitChar(1)] == "1";
    assert Text.IntToString(ObjBad) == "-1";
  }
}
