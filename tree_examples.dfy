/**
 * The tree vectors of the object checker's test suite. Each entry is built as the
 * suite builds it: its `mode SP name` text, a NUL, and the twenty characters 0 to 19
 * as its id.
 */
module TreeExamples {
  import opened Wrappers
  import opened ObjectChecker
  import opened TreeLaws

  /** The characters 0, 1, ..., n - 1. */
  function Count(n: nat): (r: string)
    requires n <= 0x80
    ensures |r| == n
    ensures forall k :: 0 <= k < n ==> r[k] == k as char
  {
    if n == 0 then [] else Count(n - 1) + [(n - 1) as char]
  }

  /** The id of every entry: the characters 0, 1, ..., 19. */
  const TestId: string := Count(RawIdLength)

  /** An entry whose `mode SP name` text is `text`, in front of rest. */
  function Entry(text: string, rest: string): string {
    text + ([Nul] + (TestId + rest))
  }

  /** The entries with the given texts, one after another. */
  function Entries(texts: seq<string>): string {
    if texts == [] then [] else Entry(texts[0], Entries(texts[1..]))
  }

  // ---------------------------------------------------------------------
  // Helpers
  // ---------------------------------------------------------------------

  lemma RegularFileText() ensures OctalText(ModeRegularFile) == "100644" {}
  lemma ExecutableFileText() ensures OctalText(ModeExecutableFile) == "100755" {}
  lemma TreeModeText() ensures OctalText(ModeTree) == "40000" {}
  lemma SymlinkText() ensures OctalText(ModeSymlink) == "120000" {}
  lemma GitlinkText() ensures OctalText(ModeGitlink) == "160000" {}

  /** The text of an entry is its mode in octal, a space and its name. */
  predicate TextOf(e: TreeEntry, text: string) {
    text == OctalText(e.mode) + (" " + e.name) && e.id == TestId
  }

  lemma EntryText(e: TreeEntry, text: string, rest: string)
    requires TextOf(e, text)
    ensures EncodeEntry(e, rest) == Entry(text, rest)
  {
  }

  lemma {:induction false} TreeText(es: seq<TreeEntry>, texts: seq<string>)
    requires |es| == |texts| && forall k :: 0 <= k < |es| ==> TextOf(es[k], texts[k])
    ensures EncodeTree(es) == Entries(texts)
    decreases |es|
  {
    if es != [] {
      TreeText(es[1..], texts[1..]);
      EntryText(es[0], texts[0], Entries(texts[1..]));
    }
  }

  /** The checker's verdict on well-formed entries is the order verdict. */
  lemma TreeVerdict(es: seq<TreeEntry>, texts: seq<string>)
    requires AllWellFormed(es)
    requires |es| == |texts| && forall k :: 0 <= k < |es| ==> TextOf(es[k], texts[k])
    ensures CheckTree(Entries(texts)) == match OrderVerdict([], es)
      case Success(_) => Success(())
      case Failure(m) => Failure(m)
  {
    TreeText(es, texts);
    EncodesTree(es);
    EntriesOf(EncodeTree(es), es, []);
  }

  /** A well-formed entry with the test id, spelt `modeText SP name`. */
  lemma Spelt(mode: nat, modeText: string, name: string, text: string)
    requires OctalText(mode) == modeText && SupportedMode(mode)
    requires text == modeText + (" " + name)
    requires name != [] && name != "." && name != ".." && Nul !in name && '/' !in name
    ensures TextOf(TreeEntry(mode, name, TestId), text) && WellFormedEntry(TreeEntry(mode, name, TestId))
  {
  }

  lemma NameAbsent(done: seq<TreeEntry>, x: string)
    requires forall k :: 0 <= k < |done| ==> done[k].name != x
    ensures x !in Names(done)
  {
  }

  /** An entry whose name no entry before it has, and that does not sort before its predecessor. */
  lemma Admit(done: seq<TreeEntry>, e: TreeEntry, es: seq<TreeEntry>)
    requires forall k :: 0 <= k < |done| ==> done[k].name != e.name
    requires done == [] || PathCompare(done[|done| - 1].name, done[|done| - 1].mode, e.name, e.mode) <= 0
    ensures OrderVerdict(done, [e] + es) == OrderVerdict(done + [e], es)
  {
    NameAbsent(done, e.name);
    assert ([e] + es)[0] == e && ([e] + es)[1..] == es;
  }

  lemma Duplicate(done: seq<TreeEntry>, e: TreeEntry, es: seq<TreeEntry>, k: nat)
    requires k < |done| && done[k].name == e.name
    ensures OrderVerdict(done, [e] + es) == Failure("duplicate entry names")
  {
    assert ([e] + es)[0] == e;
    assert Names(done)[k] == e.name;
  }

  lemma Unsorted(done: seq<TreeEntry>, e: TreeEntry, es: seq<TreeEntry>)
    requires forall k :: 0 <= k < |done| ==> done[k].name != e.name
    requires done != [] && PathCompare(done[|done| - 1].name, done[|done| - 1].mode, e.name, e.mode) > 0
    ensures OrderVerdict(done, [e] + es) == Failure("incorrectly sorted")
  {
    NameAbsent(done, e.name);
    assert ([e] + es)[0] == e;
  }

  // ---------------------------------------------------------------------
  // The entries of the vectors
  // ---------------------------------------------------------------------

  lemma FileFoobar()
    ensures TextOf(TreeEntry(ModeRegularFile, "foobar", TestId), "100644 foobar") && WellFormedEntry(TreeEntry(ModeRegularFile, "foobar", TestId))
  {
    RegularFileText();
    Spelt(ModeRegularFile, "100644", "foobar", "100644 foobar");
  }

  lemma FileFooaaa()
    ensures TextOf(TreeEntry(ModeRegularFile, "fooaaa", TestId), "100644 fooaaa") && WellFormedEntry(TreeEntry(ModeRegularFile, "fooaaa", TestId))
  {
    RegularFileText();
    Spelt(ModeRegularFile, "100644", "fooaaa", "100644 fooaaa");
  }

  lemma TreeA()
    ensures TextOf(TreeEntry(ModeTree, "a", TestId), "40000 a") && WellFormedEntry(TreeEntry(ModeTree, "a", TestId))
  {
    TreeModeText();
    Spelt(ModeTree, "40000", "a", "40000 a");
  }

  lemma FileADotC()
    ensures TextOf(TreeEntry(ModeRegularFile, "a.c", TestId), "100644 a.c") && WellFormedEntry(TreeEntry(ModeRegularFile, "a.c", TestId))
  {
    RegularFileText();
    Spelt(ModeRegularFile, "100644", "a.c", "100644 a.c");
  }

  lemma FileA0c()
    ensures TextOf(TreeEntry(ModeRegularFile, "a0c", TestId), "100644 a0c") && WellFormedEntry(TreeEntry(ModeRegularFile, "a0c", TestId))
  {
    RegularFileText();
    Spelt(ModeRegularFile, "100644", "a0c", "100644 a0c");
  }

  lemma FileA()
    ensures TextOf(TreeEntry(ModeRegularFile, "a", TestId), "100644 a") && WellFormedEntry(TreeEntry(ModeRegularFile, "a", TestId))
  {
    RegularFileText();
    Spelt(ModeRegularFile, "100644", "a", "100644 a");
  }

  lemma ExecA()
    ensures TextOf(TreeEntry(ModeExecutableFile, "a", TestId), "100755 a") && WellFormedEntry(TreeEntry(ModeExecutableFile, "a", TestId))
  {
    ExecutableFileText();
    Spelt(ModeExecutableFile, "100755", "a", "100755 a");
  }

  lemma FileADotD()
    ensures TextOf(TreeEntry(ModeRegularFile, "a.d", TestId), "100644 a.d") && WellFormedEntry(TreeEntry(ModeRegularFile, "a.d", TestId))
  {
    RegularFileText();
    Spelt(ModeRegularFile, "100644", "a.d", "100644 a.d");
  }

  lemma FileADotE()
    ensures TextOf(TreeEntry(ModeRegularFile, "a.e", TestId), "100644 a.e") && WellFormedEntry(TreeEntry(ModeRegularFile, "a.e", TestId))
  {
    RegularFileText();
    Spelt(ModeRegularFile, "100644", "a.e", "100644 a.e");
  }

  lemma FileZoo()
    ensures TextOf(TreeEntry(ModeRegularFile, "zoo", TestId), "100644 zoo") && WellFormedEntry(TreeEntry(ModeRegularFile, "zoo", TestId))
  {
    RegularFileText();
    Spelt(ModeRegularFile, "100644", "zoo", "100644 zoo");
  }

  lemma FileRegularFile()
    ensures TextOf(TreeEntry(ModeRegularFile, "regular-file", TestId), "100644 regular-file") && WellFormedEntry(TreeEntry(ModeRegularFile, "regular-file", TestId))
  {
    RegularFileText();
    Spelt(ModeRegularFile, "100644", "regular-file", "100644 regular-file");
  }

  lemma ExecExecutable()
    ensures TextOf(TreeEntry(ModeExecutableFile, "executable", TestId), "100755 executable") && WellFormedEntry(TreeEntry(ModeExecutableFile, "executable", TestId))
  {
    ExecutableFileText();
    Spelt(ModeExecutableFile, "100755", "executable", "100755 executable");
  }

  lemma TreeTree()
    ensures TextOf(TreeEntry(ModeTree, "tree", TestId), "40000 tree") && WellFormedEntry(TreeEntry(ModeTree, "tree", TestId))
  {
    TreeModeText();
    Spelt(ModeTree, "40000", "tree", "40000 tree");
  }

  lemma LinkSymlink()
    ensures TextOf(TreeEntry(ModeSymlink, "symlink", TestId), "120000 symlink") && WellFormedEntry(TreeEntry(ModeSymlink, "symlink", TestId))
  {
    SymlinkText();
    Spelt(ModeSymlink, "120000", "symlink", "120000 symlink");
  }

  lemma GitlinkGitLink()
    ensures TextOf(TreeEntry(ModeGitlink, "git link", TestId), "160000 git link") && WellFormedEntry(TreeEntry(ModeGitlink, "git link", TestId))
  {
    GitlinkText();
    Spelt(ModeGitlink, "160000", "git link", "160000 git link");
  }

  lemma FileDotA()
    ensures TextOf(TreeEntry(ModeRegularFile, ".a", TestId), "100644 .a") && WellFormedEntry(TreeEntry(ModeRegularFile, ".a", TestId))
  {
    RegularFileText();
    Spelt(ModeRegularFile, "100644", ".a", "100644 .a");
  }

  lemma ExecFoobar()
    ensures TextOf(TreeEntry(ModeExecutableFile, "foobar", TestId), "100755 foobar") && WellFormedEntry(TreeEntry(ModeExecutableFile, "foobar", TestId))
  {
    ExecutableFileText();
    Spelt(ModeExecutableFile, "100755", "foobar", "100755 foobar");
  }

  lemma ExecFooaaa()
    ensures TextOf(TreeEntry(ModeExecutableFile, "fooaaa", TestId), "100755 fooaaa") && WellFormedEntry(TreeEntry(ModeExecutableFile, "fooaaa", TestId))
  {
    ExecutableFileText();
    Spelt(ModeExecutableFile, "100755", "fooaaa", "100755 fooaaa");
  }

  lemma FileB()
    ensures TextOf(TreeEntry(ModeRegularFile, "b", TestId), "100644 b") && WellFormedEntry(TreeEntry(ModeRegularFile, "b", TestId))
  {
    RegularFileText();
    Spelt(ModeRegularFile, "100644", "b", "100644 b");
  }

  lemma TreeB()
    ensures TextOf(TreeEntry(ModeTree, "b", TestId), "40000 b") && WellFormedEntry(TreeEntry(ModeTree, "b", TestId))
  {
    TreeModeText();
    Spelt(ModeTree, "40000", "b", "40000 b");
  }

  lemma FileApple()
    ensures TextOf(TreeEntry(ModeRegularFile, "apple", TestId), "100644 apple") && WellFormedEntry(TreeEntry(ModeRegularFile, "apple", TestId))
  {
    RegularFileText();
    Spelt(ModeRegularFile, "100644", "apple", "100644 apple");
  }

  lemma TreeAnOrang()
    ensures TextOf(TreeEntry(ModeTree, "an orang", TestId), "40000 an orang") && WellFormedEntry(TreeEntry(ModeTree, "an orang", TestId))
  {
    TreeModeText();
    Spelt(ModeTree, "40000", "an orang", "40000 an orang");
  }

  lemma TreeAnOrange()
    ensures TextOf(TreeEntry(ModeTree, "an orange", TestId), "40000 an orange") && WellFormedEntry(TreeEntry(ModeTree, "an orange", TestId))
  {
    TreeModeText();
    Spelt(ModeTree, "40000", "an orange", "40000 an orange");
  }

  // ---------------------------------------------------------------------
  // The comparisons the vectors need
  // ---------------------------------------------------------------------

  lemma CompareFileFoobarFileFooaaa()
    ensures PathCompare("foobar", ModeRegularFile, "fooaaa", ModeRegularFile) > 0
  {
  }

  lemma CompareTreeAFileADotC()
    ensures PathCompare("a", ModeTree, "a.c", ModeRegularFile) > 0
  {
  }

  lemma CompareFileA0cTreeA()
    ensures PathCompare("a0c", ModeRegularFile, "a", ModeTree) > 0
  {
  }

  lemma CompareFileAFileADotC()
    ensures PathCompare("a", ModeRegularFile, "a.c", ModeRegularFile) <= 0
  {
  }

  lemma CompareFileADotCFileADotD()
    ensures PathCompare("a.c", ModeRegularFile, "a.d", ModeRegularFile) <= 0
  {
  }

  lemma CompareFileADotDFileADotE()
    ensures PathCompare("a.d", ModeRegularFile, "a.e", ModeRegularFile) <= 0
  {
  }

  lemma CompareFileADotETreeA()
    ensures PathCompare("a.e", ModeRegularFile, "a", ModeTree) <= 0
  {
  }

  lemma CompareTreeAFileZoo()
    ensures PathCompare("a", ModeTree, "zoo", ModeRegularFile) <= 0
  {
  }

  lemma CompareFileFooaaaExecFoobar()
    ensures PathCompare("fooaaa", ModeRegularFile, "foobar", ModeExecutableFile) <= 0
  {
  }

  lemma CompareExecFooaaaFileFoobar()
    ensures PathCompare("fooaaa", ModeExecutableFile, "foobar", ModeRegularFile) <= 0
  {
  }

  lemma CompareTreeAFileB()
    ensures PathCompare("a", ModeTree, "b", ModeRegularFile) <= 0
  {
  }

  lemma CompareFileATreeB()
    ensures PathCompare("a", ModeRegularFile, "b", ModeTree) <= 0
  {
  }

  lemma CompareFileADotCTreeA()
    ensures PathCompare("a.c", ModeRegularFile, "a", ModeTree) <= 0
  {
  }

  lemma CompareTreeAFileA0c()
    ensures PathCompare("a", ModeTree, "a0c", ModeRegularFile) <= 0
  {
  }

  lemma CompareTreeAFileApple()
    ensures PathCompare("a", ModeTree, "apple", ModeRegularFile) <= 0
  {
  }

  lemma CompareTreeAnOrangTreeAnOrange()
    ensures PathCompare("an orang", ModeTree, "an orange", ModeTree) <= 0
  {
  }

  lemma CompareFileAFileA0c()
    ensures PathCompare("a", ModeRegularFile, "a0c", ModeRegularFile) <= 0
  {
  }

  lemma CompareFileA0cFileB()
    ensures PathCompare("a0c", ModeRegularFile, "b", ModeRegularFile) <= 0
  {
  }

  // ---------------------------------------------------------------------
  // Trees of one, two, three and six entries
  // ---------------------------------------------------------------------

  lemma Tree1(e0: TreeEntry, t0: string)
    requires TextOf(e0, t0) && WellFormedEntry(e0)
    ensures CheckTree(Entries([t0])) == match OrderVerdict([], [e0])
      case Success(_) => Success(())
      case Failure(m) => Failure(m)
  {
    var es := [e0];
    var ts := [t0];
    assert forall k :: 0 <= k < 1 ==> TextOf(es[k], ts[k]) && WellFormedEntry(es[k]);
    TreeVerdict(es, ts);
  }

  lemma Tree2(e0: TreeEntry, e1: TreeEntry, t0: string, t1: string)
    requires TextOf(e0, t0) && WellFormedEntry(e0) && TextOf(e1, t1) && WellFormedEntry(e1)
    ensures CheckTree(Entries([t0, t1])) == match OrderVerdict([], [e0, e1])
      case Success(_) => Success(())
      case Failure(m) => Failure(m)
  {
    var es := [e0, e1];
    var ts := [t0, t1];
    assert forall k :: 0 <= k < 2 ==> TextOf(es[k], ts[k]) && WellFormedEntry(es[k]);
    TreeVerdict(es, ts);
  }

  lemma Tree3(e0: TreeEntry, e1: TreeEntry, e2: TreeEntry, t0: string, t1: string, t2: string)
    requires TextOf(e0, t0) && WellFormedEntry(e0) && TextOf(e1, t1) && WellFormedEntry(e1) && TextOf(e2, t2) && WellFormedEntry(e2)
    ensures CheckTree(Entries([t0, t1, t2])) == match OrderVerdict([], [e0, e1, e2])
      case Success(_) => Success(())
      case Failure(m) => Failure(m)
  {
    var es := [e0, e1, e2];
    var ts := [t0, t1, t2];
    assert forall k :: 0 <= k < 3 ==> TextOf(es[k], ts[k]) && WellFormedEntry(es[k]);
    TreeVerdict(es, ts);
  }

  lemma Tree6(e0: TreeEntry, e1: TreeEntry, e2: TreeEntry, e3: TreeEntry, e4: TreeEntry, e5: TreeEntry, t0: string, t1: string, t2: string, t3: string, t4: string, t5: string)
    requires TextOf(e0, t0) && WellFormedEntry(e0) && TextOf(e1, t1) && WellFormedEntry(e1) && TextOf(e2, t2) && WellFormedEntry(e2) && TextOf(e3, t3) && WellFormedEntry(e3) && TextOf(e4, t4) && WellFormedEntry(e4) && TextOf(e5, t5) && WellFormedEntry(e5)
    ensures CheckTree(Entries([t0, t1, t2, t3, t4, t5])) == match OrderVerdict([], [e0, e1, e2, e3, e4, e5])
      case Success(_) => Success(())
      case Failure(m) => Failure(m)
  {
    var es := [e0, e1, e2, e3, e4, e5];
    var ts := [t0, t1, t2, t3, t4, t5];
    assert forall k :: 0 <= k < 6 ==> TextOf(es[k], ts[k]) && WellFormedEntry(es[k]);
    TreeVerdict(es, ts);
  }

  lemma Ordered1(e0: TreeEntry)
    ensures OrderVerdict([], [e0]) == Success([e0])
  {
    Admit([], e0, []);
    assert [] + [e0] == [e0];
  }

  lemma Ordered2(e0: TreeEntry, e1: TreeEntry)
    requires e0.name != e1.name && PathCompare(e0.name, e0.mode, e1.name, e1.mode) <= 0
    ensures OrderVerdict([], [e0, e1]) == Success([e0, e1])
  {
    assert [e0, e1] == [e0] + [e1];
    Admit([], e0, [e1]);
    assert [] + [e0] == [e0];
    Admit([e0], e1, []);
    assert [e0] + [e1] == [e0, e1];
  }

  lemma Ordered3(e0: TreeEntry, e1: TreeEntry, e2: TreeEntry)
    requires e0.name != e1.name && e0.name != e2.name && e1.name != e2.name
    requires PathCompare(e0.name, e0.mode, e1.name, e1.mode) <= 0 && PathCompare(e1.name, e1.mode, e2.name, e2.mode) <= 0
    ensures OrderVerdict([], [e0, e1, e2]) == Success([e0, e1, e2])
  {
    assert [e0, e1, e2] == [e0] + [e1, e2];
    Admit([], e0, [e1, e2]);
    assert [] + [e0] == [e0];
    assert [e1, e2] == [e1] + [e2];
    Admit([e0], e1, [e2]);
    assert [e0] + [e1] == [e0, e1];
    Admit([e0, e1], e2, []);
    assert [e0, e1] + [e2] == [e0, e1, e2];
  }

  lemma Duplicate2(e0: TreeEntry, e1: TreeEntry)
    requires e0.name == e1.name
    ensures OrderVerdict([], [e0, e1]) == Failure("duplicate entry names")
  {
    assert [e0, e1] == [e0] + [e1];
    Admit([], e0, [e1]);
    assert [] + [e0] == [e0];
    Duplicate([e0], e1, [], 0);
    assert [e1] == [e1] + [];
  }

  lemma Unsorted2(e0: TreeEntry, e1: TreeEntry)
    requires e0.name != e1.name && PathCompare(e0.name, e0.mode, e1.name, e1.mode) > 0
    ensures OrderVerdict([], [e0, e1]) == Failure("incorrectly sorted")
  {
    assert [e0, e1] == [e0] + [e1];
    Admit([], e0, [e1]);
    assert [] + [e0] == [e0];
    Unsorted([e0], e1, []);
    assert [e1] == [e1] + [];
  }

  /** Four entries with distinct names, in order, are admitted one by one. */
  lemma Prefix4(e0: TreeEntry, e1: TreeEntry, e2: TreeEntry, e3: TreeEntry, rest: seq<TreeEntry>)
    requires e0.name != e1.name && e0.name != e2.name && e0.name != e3.name
    requires e1.name != e2.name && e1.name != e3.name && e2.name != e3.name
    requires PathCompare(e0.name, e0.mode, e1.name, e1.mode) <= 0 && PathCompare(e1.name, e1.mode, e2.name, e2.mode) <= 0 && PathCompare(e2.name, e2.mode, e3.name, e3.mode) <= 0
    ensures OrderVerdict([], [e0, e1, e2, e3] + rest) == OrderVerdict([e0, e1, e2, e3], rest)
  {
    assert [e0, e1, e2, e3] + rest == [e0] + ([e1] + ([e2] + ([e3] + rest)));
    Admit([], e0, [e1] + ([e2] + ([e3] + rest)));
    assert [] + [e0] == [e0];
    Admit([e0], e1, [e2] + ([e3] + rest));
    assert [e0] + [e1] == [e0, e1];
    Admit([e0, e1], e2, [e3] + rest);
    assert [e0, e1] + [e2] == [e0, e1, e2];
    Admit([e0, e1, e2], e3, rest);
    assert [e0, e1, e2] + [e3] == [e0, e1, e2, e3];
  }

  /** Four entries in order, then one repeating the first name: the sixth is never read. */
  lemma Duplicate6(e0: TreeEntry, e1: TreeEntry, e2: TreeEntry, e3: TreeEntry, e4: TreeEntry, e5: TreeEntry)
    requires e0.name != e1.name && e0.name != e2.name && e0.name != e3.name
    requires e1.name != e2.name && e1.name != e3.name && e2.name != e3.name
    requires PathCompare(e0.name, e0.mode, e1.name, e1.mode) <= 0 && PathCompare(e1.name, e1.mode, e2.name, e2.mode) <= 0 && PathCompare(e2.name, e2.mode, e3.name, e3.mode) <= 0
    requires e4.name == e0.name
    ensures OrderVerdict([], [e0, e1, e2, e3, e4, e5]) == Failure("duplicate entry names")
  {
    assert [e0, e1, e2, e3, e4, e5] == [e0, e1, e2, e3] + [e4, e5];
    Prefix4(e0, e1, e2, e3, [e4, e5]);
    assert [e4, e5] == [e4] + [e5];
    Duplicate([e0, e1, e2, e3], e4, [e5], 0);
  }

  // ---------------------------------------------------------------------
  // The vectors
  // ---------------------------------------------------------------------

  lemma InvalidTreeBadSorting1()
    ensures CheckTree(Entries(["100644 foobar", "100644 fooaaa"])) == Failure("incorrectly sorted")
  {
    FileFoobar();
    var e0 := TreeEntry(ModeRegularFile, "foobar", TestId);
    FileFooaaa();
    var e1 := TreeEntry(ModeRegularFile, "fooaaa", TestId);
    CompareFileFoobarFileFooaaa();
    Unsorted2(e0, e1);
    Tree2(e0, e1, "100644 foobar", "100644 fooaaa");
  }

  /** The tree `a` sorts as `a/`, after `a.c`. */
  lemma InvalidTreeBadSorting2()
    ensures CheckTree(Entries(["40000 a", "100644 a.c"])) == Failure("incorrectly sorted")
  {
    TreeA();
    var e0 := TreeEntry(ModeTree, "a", TestId);
    FileADotC();
    var e1 := TreeEntry(ModeRegularFile, "a.c", TestId);
    CompareTreeAFileADotC();
    Unsorted2(e0, e1);
    Tree2(e0, e1, "40000 a", "100644 a.c");
  }

  /** The tree `a` sorts as `a/`, before `a0c`. */
  lemma InvalidTreeBadSorting3()
    ensures CheckTree(Entries(["100644 a0c", "40000 a"])) == Failure("incorrectly sorted")
  {
    FileA0c();
    var e0 := TreeEntry(ModeRegularFile, "a0c", TestId);
    TreeA();
    var e1 := TreeEntry(ModeTree, "a", TestId);
    CompareFileA0cTreeA();
    Unsorted2(e0, e1);
    Tree2(e0, e1, "100644 a0c", "40000 a");
  }

  lemma InvalidTreeDuplicateNames1()
    ensures CheckTree(Entries(["100644 a", "100644 a"])) == Failure("duplicate entry names")
  {
    FileA();
    var e0 := TreeEntry(ModeRegularFile, "a", TestId);
    FileA();
    var e1 := TreeEntry(ModeRegularFile, "a", TestId);
    Duplicate2(e0, e1);
    Tree2(e0, e1, "100644 a", "100644 a");
  }

  /** The same name twice, whatever the modes. */
  lemma InvalidTreeDuplicateNames2()
    ensures CheckTree(Entries(["100644 a", "100755 a"])) == Failure("duplicate entry names")
  {
    FileA();
    var e0 := TreeEntry(ModeRegularFile, "a", TestId);
    ExecA();
    var e1 := TreeEntry(ModeExecutableFile, "a", TestId);
    Duplicate2(e0, e1);
    Tree2(e0, e1, "100644 a", "100755 a");
  }

  lemma InvalidTreeDuplicateNames3()
    ensures CheckTree(Entries(["100644 a", "40000 a"])) == Failure("duplicate entry names")
  {
    FileA();
    var e0 := TreeEntry(ModeRegularFile, "a", TestId);
    TreeA();
    var e1 := TreeEntry(ModeTree, "a", TestId);
    Duplicate2(e0, e1);
    Tree2(e0, e1, "100644 a", "40000 a");
  }

  /** A file and a tree of the same name, three entries apart. */
  lemma InvalidTreeDuplicateNames4()
    ensures CheckTree(Entries(["100644 a", "100644 a.c", "100644 a.d", "100644 a.e", "40000 a", "100644 zoo"])) == Failure("duplicate entry names")
  {
    FileA();
    var e0 := TreeEntry(ModeRegularFile, "a", TestId);
    FileADotC();
    var e1 := TreeEntry(ModeRegularFile, "a.c", TestId);
    FileADotD();
    var e2 := TreeEntry(ModeRegularFile, "a.d", TestId);
    FileADotE();
    var e3 := TreeEntry(ModeRegularFile, "a.e", TestId);
    TreeA();
    var e4 := TreeEntry(ModeTree, "a", TestId);
    FileZoo();
    var e5 := TreeEntry(ModeRegularFile, "zoo", TestId);
    CompareFileAFileADotC();
    CompareFileADotCFileADotD();
    CompareFileADotDFileADotE();
    Duplicate6(e0, e1, e2, e3, e4, e5);
    Tree6(e0, e1, e2, e3, e4, e5, "100644 a", "100644 a.c", "100644 a.d", "100644 a.e", "40000 a", "100644 zoo");
  }

  lemma ValidTree1()
    ensures CheckTree(Entries(["100644 regular-file"])) == Success(())
  {
    FileRegularFile();
    var e0 := TreeEntry(ModeRegularFile, "regular-file", TestId);
    Ordered1(e0);
    Tree1(e0, "100644 regular-file");
  }

  lemma ValidTree2()
    ensures CheckTree(Entries(["100755 executable"])) == Success(())
  {
    ExecExecutable();
    var e0 := TreeEntry(ModeExecutableFile, "executable", TestId);
    Ordered1(e0);
    Tree1(e0, "100755 executable");
  }

  lemma ValidTree3()
    ensures CheckTree(Entries(["40000 tree"])) == Success(())
  {
    TreeTree();
    var e0 := TreeEntry(ModeTree, "tree", TestId);
    Ordered1(e0);
    Tree1(e0, "40000 tree");
  }

  lemma ValidTree4()
    ensures CheckTree(Entries(["120000 symlink"])) == Success(())
  {
    LinkSymlink();
    var e0 := TreeEntry(ModeSymlink, "symlink", TestId);
    Ordered1(e0);
    Tree1(e0, "120000 symlink");
  }

  lemma ValidTree5()
    ensures CheckTree(Entries(["160000 git link"])) == Success(())
  {
    GitlinkGitLink();
    var e0 := TreeEntry(ModeGitlink, "git link", TestId);
    Ordered1(e0);
    Tree1(e0, "160000 git link");
  }

  lemma ValidTree6()
    ensures CheckTree(Entries(["100644 .a"])) == Success(())
  {
    FileDotA();
    var e0 := TreeEntry(ModeRegularFile, ".a", TestId);
    Ordered1(e0);
    Tree1(e0, "100644 .a");
  }

  lemma ValidTreeSorting1()
    ensures CheckTree(Entries(["100644 fooaaa", "100755 foobar"])) == Success(())
  {
    FileFooaaa();
    var e0 := TreeEntry(ModeRegularFile, "fooaaa", TestId);
    ExecFoobar();
    var e1 := TreeEntry(ModeExecutableFile, "foobar", TestId);
    CompareFileFooaaaExecFoobar();
    Ordered2(e0, e1);
    Tree2(e0, e1, "100644 fooaaa", "100755 foobar");
  }

  lemma ValidTreeSorting2()
    ensures CheckTree(Entries(["100755 fooaaa", "100644 foobar"])) == Success(())
  {
    ExecFooaaa();
    var e0 := TreeEntry(ModeExecutableFile, "fooaaa", TestId);
    FileFoobar();
    var e1 := TreeEntry(ModeRegularFile, "foobar", TestId);
    CompareExecFooaaaFileFoobar();
    Ordered2(e0, e1);
    Tree2(e0, e1, "100755 fooaaa", "100644 foobar");
  }

  lemma ValidTreeSorting3()
    ensures CheckTree(Entries(["40000 a", "100644 b"])) == Success(())
  {
    TreeA();
    var e0 := TreeEntry(ModeTree, "a", TestId);
    FileB();
    var e1 := TreeEntry(ModeRegularFile, "b", TestId);
    CompareTreeAFileB();
    Ordered2(e0, e1);
    Tree2(e0, e1, "40000 a", "100644 b");
  }

  lemma ValidTreeSorting4()
    ensures CheckTree(Entries(["100644 a", "40000 b"])) == Success(())
  {
    FileA();
    var e0 := TreeEntry(ModeRegularFile, "a", TestId);
    TreeB();
    var e1 := TreeEntry(ModeTree, "b", TestId);
    CompareFileATreeB();
    Ordered2(e0, e1);
    Tree2(e0, e1, "100644 a", "40000 b");
  }

  /** `a.c` < `a/` < `a0c`. */
  lemma ValidTreeSorting5()
    ensures CheckTree(Entries(["100644 a.c", "40000 a", "100644 a0c"])) == Success(())
  {
    FileADotC();
    var e0 := TreeEntry(ModeRegularFile, "a.c", TestId);
    TreeA();
    var e1 := TreeEntry(ModeTree, "a", TestId);
    FileA0c();
    var e2 := TreeEntry(ModeRegularFile, "a0c", TestId);
    CompareFileADotCTreeA();
    CompareTreeAFileA0c();
    Ordered3(e0, e1, e2);
    Tree3(e0, e1, e2, "100644 a.c", "40000 a", "100644 a0c");
  }

  lemma ValidTreeSorting6()
    ensures CheckTree(Entries(["40000 a", "100644 apple"])) == Success(())
  {
    TreeA();
    var e0 := TreeEntry(ModeTree, "a", TestId);
    FileApple();
    var e1 := TreeEntry(ModeRegularFile, "apple", TestId);
    CompareTreeAFileApple();
    Ordered2(e0, e1);
    Tree2(e0, e1, "40000 a", "100644 apple");
  }

  lemma ValidTreeSorting7()
    ensures CheckTree(Entries(["40000 an orang", "40000 an orange"])) == Success(())
  {
    TreeAnOrang();
    var e0 := TreeEntry(ModeTree, "an orang", TestId);
    TreeAnOrange();
    var e1 := TreeEntry(ModeTree, "an orange", TestId);
    CompareTreeAnOrangTreeAnOrange();
    Ordered2(e0, e1);
    Tree2(e0, e1, "40000 an orang", "40000 an orange");
  }

  lemma ValidTreeSorting8()
    ensures CheckTree(Entries(["100644 a", "100644 a0c", "100644 b"])) == Success(())
  {
    FileA();
    var e0 := TreeEntry(ModeRegularFile, "a", TestId);
    FileA0c();
    var e1 := TreeEntry(ModeRegularFile, "a0c", TestId);
    FileB();
    var e2 := TreeEntry(ModeRegularFile, "b", TestId);
    CompareFileAFileA0c();
    CompareFileA0cFileB();
    Ordered3(e0, e1, e2);
    Tree3(e0, e1, e2, "100644 a", "100644 a0c", "100644 b");
  }

  // ---------------------------------------------------------------------
  // Malformed entry headers
  // ---------------------------------------------------------------------

  /** An entry spelt `modeText SP tail`, with modeText the octal text of m. */
  lemma EntrySpelt(m: nat, modeText: string, text: string, tail: string, rest: string)
    requires OctalText(m) == modeText && text == modeText + (" " + tail)
    ensures Spells(Entry(text, rest), m, tail + ([Nul] + (TestId + rest)))
  {
    var after := [Nul] + (TestId + rest);
    assert Entry(text, rest) == OctalText(m) + (" " + (tail + after));
    SpellsConcat(m, tail + after);
  }

  lemma OneEntry(text: string)
    ensures Entries([text]) == Entry(text, [])
  {
  }

  lemma ModeOneText() ensures OctalText(1) == "1" {}
  lemma ModeOctal170000Text() ensures OctalText(0xF000) == "170000" {}

  lemma InvalidTreeModeMissingName()
    ensures CheckTree("100644") == Failure("truncated in mode")
  {
  }

  lemma InvalidTreeModeNotOctal1()
    ensures CheckTree(Entries(["8 a"])) == Failure("invalid mode character")
  {
  }

  lemma InvalidTreeModeNotOctal2()
    ensures CheckTree(Entries(["Z a"])) == Failure("invalid mode character")
  {
  }

  lemma InvalidTreeModeNotSupportedMode1()
    ensures CheckTree(Entries(["1 a"])) == Failure("invalid mode 1")
  {
    assert "invalid mode " + "1" == "invalid mode 1";
    ModeOneText();
    OneEntry("1 a");
    EntrySpelt(1, "1", "1 a", "a", []);
    ModeRejected(Entries(["1 a"]), 1, "a" + ([Nul] + (TestId + [])));
  }

  /** The suite's expected message spells the mode in octal digits: "170000". */
  lemma InvalidTreeModeNotSupportedMode2()
    ensures CheckTree(Entries(["170000 a"])) == Failure("invalid mode " + "170000")
  {
    ModeOctal170000Text();
    OneEntry("170000 a");
    EntrySpelt(0xF000, "170000", "170000 a", "a", []);
    ModeRejected(Entries(["170000 a"]), 0xF000, "a" + ([Nul] + (TestId + [])));
  }

  lemma InvalidTreeModeStartsWithZero1()
    ensures CheckTree(Entries(["0 a"])) == Failure("mode starts with '0'")
  {
  }

  lemma InvalidTreeModeStartsWithZero2()
    ensures CheckTree(Entries(["0100644 a"])) == Failure("mode starts with '0'")
  {
  }

  lemma InvalidTreeModeStartsWithZero3()
    ensures CheckTree(Entries(["040000 a"])) == Failure("mode starts with '0'")
  {
  }

  lemma InvalidTreeNameContainsSlash()
    ensures CheckTree(Entries(["100644 a/b"])) == Failure("name contains '/'")
  {
    var after := [Nul] + (TestId + []);
    RegularFileText();
    OneEntry("100644 a/b");
    EntrySpelt(ModeRegularFile, "100644", "100644 a/b", "a/b", []);
    assert "a/b" + after == "a" + ("/" + ("b" + after));
    NameSlashRejected(Entries(["100644 a/b"]), ModeRegularFile, "a", "b" + after);
  }

  lemma InvalidTreeNameIsDot()
    ensures CheckTree(Entries(["100644 ."])) == Failure("invalid name '.'")
  {
    RegularFileText();
    OneEntry("100644 .");
    EntrySpelt(ModeRegularFile, "100644", "100644 .", ".", []);
    DotNameRejected(Entries(["100644 ."]), ModeRegularFile, TestId + []);
  }

  lemma InvalidTreeNameIsDotDot()
    ensures CheckTree(Entries(["100644 .."])) == Failure("invalid name '..'")
  {
    RegularFileText();
    OneEntry("100644 ..");
    EntrySpelt(ModeRegularFile, "100644", "100644 ..", "..", []);
    DotDotNameRejected(Entries(["100644 .."]), ModeRegularFile, TestId + []);
  }

  lemma InvalidTreeNameIsEmpty()
    ensures CheckTree(Entries(["100644 "])) == Failure("zero length name")
  {
    var after := [Nul] + (TestId + []);
    RegularFileText();
    OneEntry("100644 ");
    EntrySpelt(ModeRegularFile, "100644", "100644 ", [], []);
    assert [] + after == after;
    EmptyNameRejected(Entries(["100644 "]), ModeRegularFile, TestId + []);
  }

  lemma InvalidTreeTruncatedInName()
    ensures CheckTree("100644 b") == Failure("truncated in name")
  {
    RegularFileText();
    assert "100644 b" == OctalText(ModeRegularFile) + (" " + "b");
    SpellsConcat(ModeRegularFile, "b");
    NameUnterminated("100644 b", ModeRegularFile, "b");
  }

  /** A NUL after the name, then only the two characters "12" of an id. */
  lemma InvalidTreeTruncatedInObjectId()
    ensures CheckTree("100644 b" + [Nul] + "12") == Failure("truncated in object id")
  {
    RegularFileText();
    assert "100644 b" + [Nul] + "12" == OctalText(ModeRegularFile) + (" " + ("b" + ([Nul] + "12")));
    SpellsConcat(ModeRegularFile, "b" + ([Nul] + "12"));
    IdTruncated("100644 b" + [Nul] + "12", ModeRegularFile, "b", "12");
  }

  lemma ValidEmptyTree()
    ensures CheckTree([]) == Success(()) && Check(ObjTree, []) == Success(())
  {
  }
}
