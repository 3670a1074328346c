/**
 * The path confinement guard shared by the file manager and the command executor:
 * `os.path.abspath` (join onto the process working directory, then `normpath`) and the
 * raw `str.startswith` comparison of the two absolute forms. Nothing here touches a disk:
 * `normpath` is purely textual, and so is the model.
 */
module Paths {
  import Text

  predicate IsAbsolute(p: string) {
    |p| > 0 && p[0] == '/'
  }

  /** The process working directory returned by `os.getcwd()` is always absolute. */
  type AbsolutePath = p: string | IsAbsolute(p) witness "/"

  /** Python's `s.startswith(prefix)`. */
  predicate StartsWith(s: string, prefix: string) {
    |prefix| <= |s| && s[..|prefix|] == prefix
  }

  /** `os.path.join(cwd, p)` for two components. */
  function JoinCwd(cwd: AbsolutePath, p: string): (r: AbsolutePath) {
    if IsAbsolute(p) then p
    else if cwd[|cwd| - 1] == '/' then cwd + p
    else cwd + "/" + p
  }

  /** `s.split('/')`. This is `Text.Split(s, "/")` (proved in `SplitIsTextSplit`), written
      character by character so that the lemmas about paths can go one character at a time. */
  function Split(s: string): (segs: seq<string>)
    ensures |segs| >= 1
    ensures forall i :: 0 <= i < |segs| ==> '/' !in segs[i]
    decreases |s|
  {
    if s == [] then [""]
    else if s[0] == '/' then [""] + Split(s[1..])
    else
      var rest := Split(s[1..]);
      [[s[0]] + rest[0]] + rest[1..]
  }

  /** `'/'.join(segs)`: `Text.Join(segs, "/")` (proved in `JoinIsTextJoin`), extended to no
      components at all, which a normalised path at the top has. */
  function Join(segs: seq<string>): string
    decreases |segs|
  {
    if segs == [] then ""
    else if |segs| == 1 then segs[0]
    else segs[0] + "/" + Join(segs[1..])
  }

  /** A segment that `normpath` keeps as it is. */
  predicate Proper(seg: string) {
    seg != "" && seg != "." && seg != ".." && '/' !in seg
  }

  predicate AllProper(segs: seq<string>) {
    forall i :: 0 <= i < |segs| ==> Proper(segs[i])
  }

  /** One iteration of the loop of `normpath` over the components of an absolute path: empty
      and "." components are dropped, ".." pops the last kept component (and is dropped at
      the top), any other component is kept. */
  function Step(stack: seq<string>, seg: string): seq<string> {
    if seg == "" || seg == "." then stack
    else if seg == ".." then (if stack == [] then [] else stack[..|stack| - 1])
    else stack + [seg]
  }

  /** The whole loop of `normpath`, from the components kept so far. */
  function Resolve(stack: seq<string>, segs: seq<string>): seq<string>
    decreases |segs|
  {
    if segs == [] then stack else Resolve(Step(stack, segs[0]), segs[1..])
  }

  /** POSIX keeps exactly two leading slashes and folds one or three or more into one. */
  function Lead(s: string): string {
    if StartsWith(s, "//") && !StartsWith(s, "///") then "//" else "/"
  }

  /** A normalised absolute path: its leading slashes and its components. */
  datatype Parts = Parts(lead: string, segs: seq<string>)

  function Render(p: Parts): string {
    p.lead + Join(p.segs)
  }

  /** `normpath` of an absolute path, split into its parts. */
  function Normalize(s: AbsolutePath): Parts {
    Parts(Lead(s), Resolve([], Split(s)))
  }

  /** The parts of `os.path.abspath(p)` when the process runs in `cwd`. */
  function AbsParts(cwd: AbsolutePath, p: string): Parts {
    Normalize(JoinCwd(cwd, p))
  }

  /** `os.path.abspath(p)` when the process runs in `cwd`. */
  function Abs(cwd: AbsolutePath, p: string): AbsolutePath {
    Render(AbsParts(cwd, p))
  }

  /** `_validate_path` of file_manager.py and the cwd check of executor.py: the absolute form
      of `p` starts with the absolute form of `root`, as strings. */
  predicate WithinRoot(cwd: AbsolutePath, root: string, p: string) {
    StartsWith(Abs(cwd, p), Abs(cwd, root))
  }

  /** The segment-aware containment that a path-boundary check would test: same leading
      slashes, and the root's components are the first components of the path's. */
  predicate SegmentContained(cwd: AbsolutePath, root: string, p: string) {
    var r, q := AbsParts(cwd, root), AbsParts(cwd, p);
    r.lead == q.lead && r.segs <= q.segs
  }

  // ---------------------------------------------------------------------------
  // os.path.dirname
  // ---------------------------------------------------------------------------

  /** `p.rfind('/')`. */
  function LastSlash(p: string): (i: int)
    ensures -1 <= i < |p|
    ensures i >= 0 ==> p[i] == '/'
    ensures forall j :: i < j < |p| ==> p[j] != '/'
    decreases |p|
  {
    if p == [] then -1
    else if p[|p| - 1] == '/' then |p| - 1
    else LastSlash(p[..|p| - 1])
  }

  predicate AllSlashes(s: string) {
    forall i :: 0 <= i < |s| ==> s[i] == '/'
  }

  /** `s.rstrip('/')`. */
  function RStripSlashes(s: string): string
    decreases |s|
  {
    if s != [] && s[|s| - 1] == '/' then RStripSlashes(s[..|s| - 1]) else s
  }

  /** `os.path.dirname(p)`: everything before the last slash, trailing slashes removed unless
      the head is made of slashes only; "" for a bare name. */
  function Dirname(p: string): string {
    var head := p[..LastSlash(p) + 1];
    if head != [] && !AllSlashes(head) then RStripSlashes(head) else head
  }

  /** The last component of `p`: what follows its last slash (`os.path.basename`). */
  function LastComponent(p: string): string {
    p[LastSlash(p) + 1..]
  }

  /** A path whose last component is empty, "." or "..": `os.stat` resolves it only to a
      directory, and a regular file there gives ENOTDIR. */
  predicate NamesDirectory(p: string) {
    var c := LastComponent(p);
    c == "" || c == "." || c == ".."
  }

  /** Where the operating system finds `p` when the process runs in `cwd`: the absolute form,
      except that a leading "//" names the same place as "/", as on Linux. */
  function LocationParts(cwd: AbsolutePath, p: string): Parts {
    Parts("/", AbsParts(cwd, p).segs)
  }

  function Location(cwd: AbsolutePath, p: string): AbsolutePath {
    Render(LocationParts(cwd, p))
  }

  /** The directory that holds the normalised path (the path itself at the top). */
  function Parent(p: Parts): Parts {
    if p.segs == [] then p else Parts(p.lead, p.segs[..|p.segs| - 1])
  }

  /** The normalised directory and all its ancestors, as absolute path strings:
      what `os.makedirs` makes sure exists. */
  function Lineage(p: Parts): set<string> {
    set k | 0 <= k <= |p.segs| :: Render(Parts(p.lead, p.segs[..k]))
  }

  // ---------------------------------------------------------------------------
  // Lemmas about normal forms
  // ---------------------------------------------------------------------------

  /** The components `normpath` keeps are proper. */
  lemma {:induction false} ResolveIsProper(stack: seq<string>, segs: seq<string>)
    requires AllProper(stack)
    requires forall i :: 0 <= i < |segs| ==> '/' !in segs[i]
    ensures AllProper(Resolve(stack, segs))
    decreases |segs|
  {
    if segs != [] {
      ResolveIsProper(Step(stack, segs[0]), segs[1..]);
    }
  }

  /** Proper components pass through `normpath` untouched. */
  lemma {:induction false} ResolveProper(stack: seq<string>, segs: seq<string>)
    requires AllProper(segs)
    ensures Resolve(stack, segs) == stack + segs
    decreases |segs|
  {
    if segs != [] {
      ResolveProper(stack + [segs[0]], segs[1..]);
      assert stack + [segs[0]] + segs[1..] == stack + segs;
    }
  }

  /** Splitting a name, a slash and the rest. */
  lemma {:induction false} SplitAtSlash(x: string, y: string)
    requires '/' !in x
    ensures Split(x + "/" + y) == [x] + Split(y)
    decreases |x|
  {
    if x == [] {
      assert x + "/" + y == "/" + y;
      assert ("/" + y)[1..] == y;
    } else {
      SplitAtSlash(x[1..], y);
      assert (x + "/" + y)[1..] == x[1..] + "/" + y;
      assert [x[0]] + x[1..] == x;
    }
  }

  lemma {:induction false} SplitName(x: string)
    requires '/' !in x
    ensures Split(x) == [x]
    decreases |x|
  {
    if x != [] {
      SplitName(x[1..]);
      assert [x[0]] + x[1..] == x;
    }
  }

  /** Splitting undoes joining for components without a slash. */
  lemma {:induction false} SplitJoin(segs: seq<string>)
    requires |segs| >= 1
    requires forall i :: 0 <= i < |segs| ==> '/' !in segs[i]
    ensures Split(Join(segs)) == segs
    decreases |segs|
  {
    if |segs| == 1 {
      SplitName(segs[0]);
    } else {
      SplitJoin(segs[1..]);
      SplitAtSlash(segs[0], Join(segs[1..]));
      assert [segs[0]] + segs[1..] == segs;
    }
  }

  /** A join of proper components starts with a character other than a slash. */
  lemma JoinHead(segs: seq<string>)
    requires |segs| >= 1 && AllProper(segs)
    ensures |Join(segs)| > 0 && Join(segs)[0] == segs[0][0] && Join(segs)[0] != '/'
  {
    assert Proper(segs[0]);
  }

  /** Joining two non-empty runs of components puts a slash between their joins. */
  lemma {:induction false} JoinAppend(a: seq<string>, b: seq<string>)
    requires |a| >= 1 && |b| >= 1
    ensures Join(a + b) == Join(a) + "/" + Join(b)
    decreases |a|
  {
    if |a| == 1 {
      assert (a + b)[1..] == b;
    } else {
      JoinAppend(a[1..], b);
      assert (a + b)[1..] == a[1..] + b;
    }
  }

  /** The join of a run of components is a string prefix of the join of any extension. */
  lemma JoinPrefix(a: seq<string>, b: seq<string>)
    ensures StartsWith(Join(a + b), Join(a))
  {
    if a == [] {
    } else if b == [] {
      assert a + b == a;
    } else {
      JoinAppend(a, b);
    }
  }

  /** `k` empty components. */
  function Empties(k: nat): seq<string>
    decreases k
  {
    if k == 0 then [] else [""] + Empties(k - 1)
  }

  /** Empty components in front change nothing. */
  lemma {:induction false} ResolveSkipsEmpty(stack: seq<string>, k: nat, segs: seq<string>)
    ensures Resolve(stack, Empties(k) + segs) == Resolve(stack, segs)
    decreases k
  {
    if k > 0 {
      var e := Empties(k) + segs;
      assert Empties(k) == [""] + Empties(k - 1);
      assert e == [""] + (Empties(k - 1) + segs);
      assert Resolve(stack, e) == Resolve(Step(stack, ""), Empties(k - 1) + segs);
      ResolveSkipsEmpty(stack, k - 1, segs);
    } else {
      assert Empties(k) + segs == segs;
    }
  }

  /** Splitting an absolute path written with one leading slash. */
  lemma SplitRooted(segs: seq<string>)
    requires |segs| >= 1
    requires forall i :: 0 <= i < |segs| ==> '/' !in segs[i]
    ensures Split("/" + Join(segs)) == [""] + segs
  {
    SplitAtSlash("", Join(segs));
    assert "" + "/" + Join(segs) == "/" + Join(segs);
    SplitJoin(segs);
  }

  /** The leading slashes of a rendered path are its lead. */
  lemma RenderLead(p: Parts)
    requires p.lead == "/" || p.lead == "//"
    requires AllProper(p.segs)
    ensures IsAbsolute(Render(p)) && Lead(Render(p)) == p.lead
  {
    var s := Render(p);
    if p.segs != [] {
      JoinHead(p.segs);
      assert s[|p.lead|] == Join(p.segs)[0];
    }
  }

  /** The components of a rendered path: one empty component per leading slash, then the
      segments (or a single empty one when there are none). */
  lemma RenderSplit(p: Parts)
    requires p.lead == "/" || p.lead == "//"
    requires AllProper(p.segs)
    ensures Split(Render(p)) == Empties(|p.lead|) + (if p.segs == [] then [""] else p.segs)
  {
    var j := Join(p.segs);
    if p.segs == [] {
      assert Split(j) == [""];
    } else {
      SplitJoin(p.segs);
    }
    SplitAtSlash("", j);
    assert Empties(1) == [""];
    if p.lead == "/" {
      assert Render(p) == "" + "/" + j;
    } else {
      SplitAtSlash("", "" + "/" + j);
      assert Render(p) == "" + "/" + ("" + "/" + j);
      assert Empties(2) == [""] + [""];
    }
  }

  /** A path rendered from proper parts is its own normal form. */
  lemma RenderIsNormal(p: Parts)
    requires p.lead == "/" || p.lead == "//"
    requires AllProper(p.segs)
    ensures IsAbsolute(Render(p))
    ensures Normalize(Render(p)) == p
  {
    RenderLead(p);
    RenderSplit(p);
    var tail := if p.segs == [] then [""] else p.segs;
    ResolveSkipsEmpty([], |p.lead|, tail);
    if p.segs == [] {
      assert Resolve([], [""]) == [];
    } else {
      ResolveProper([], p.segs);
    }
  }

  /** The absolute form is built from proper components and one or two leading slashes. */
  lemma AbsPartsShape(cwd: AbsolutePath, p: string)
    ensures AbsParts(cwd, p).lead == "/" || AbsParts(cwd, p).lead == "//"
    ensures AllProper(AbsParts(cwd, p).segs)
  {
    ResolveIsProper([], Split(JoinCwd(cwd, p)));
  }

  /** `abspath` is idempotent. */
  lemma AbsIdempotent(cwd: AbsolutePath, p: string)
    ensures Abs(cwd, Abs(cwd, p)) == Abs(cwd, p)
  {
    AbsPartsShape(cwd, p);
    RenderIsNormal(AbsParts(cwd, p));
  }

  /** The guard judges a path and its absolute form alike, and a root and its absolute form alike. */
  lemma GuardOnNormalForms(cwd: AbsolutePath, root: string, p: string)
    ensures WithinRoot(cwd, root, Abs(cwd, p)) <==> WithinRoot(cwd, root, p)
    ensures WithinRoot(cwd, Abs(cwd, root), p) <==> WithinRoot(cwd, root, p)
  {
    AbsIdempotent(cwd, p);
    AbsIdempotent(cwd, root);
  }

  /** The root itself passes the guard. */
  lemma RootAdmitted(cwd: AbsolutePath, root: string)
    ensures WithinRoot(cwd, root, root)
  {
  }

  /** Every normalised path whose components extend the root's passes the guard. */
  lemma DescendantAdmitted(cwd: AbsolutePath, root: string, more: seq<string>)
    requires AllProper(more)
    ensures WithinRoot(cwd, root, Render(Parts(AbsParts(cwd, root).lead, AbsParts(cwd, root).segs + more)))
  {
    var r := AbsParts(cwd, root);
    var q := Parts(r.lead, r.segs + more);
    AbsPartsShape(cwd, root);
    assert AllProper(q.segs) by {
      forall i | 0 <= i < |q.segs| ensures Proper(q.segs[i]) {
        if i < |r.segs| { assert q.segs[i] == r.segs[i]; } else { assert q.segs[i] == more[i - |r.segs|]; }
      }
    }
    RenderIsNormal(q);
    JoinPrefix(r.segs, more);
  }

  /** Segment-aware containment implies the raw prefix test. */
  lemma SegmentContainedAdmitted(cwd: AbsolutePath, root: string, p: string)
    requires SegmentContained(cwd, root, p)
    ensures WithinRoot(cwd, root, p)
  {
    var r, q := AbsParts(cwd, root), AbsParts(cwd, p);
    assert q.segs == r.segs + q.segs[|r.segs|..];
    JoinPrefix(r.segs, q.segs[|r.segs|..]);
  }

  /** The raw prefix test is strictly weaker: under root "/a/b" it admits the sibling "/a/bx",
      which is not contained segment by segment. */
  lemma SiblingAdmitted()
    ensures WithinRoot("/", "/a/b", "/a/bx")
    ensures !SegmentContained("/", "/a/b", "/a/bx")
  {
    var r, q := Parts("/", ["a", "b"]), Parts("/", ["a", "bx"]);
    assert Join(r.segs) == "a/b" && Join(q.segs) == "a/bx";
    assert Render(r) == "/a/b" && Render(q) == "/a/bx";
    assert Proper("a") && Proper("b") && Proper("bx");
    RenderIsNormal(r);
    RenderIsNormal(q);
  }

  /** The `normpath` loop on the components of "/a/b/../c", for any proper a, b and c. */
  lemma ResolveEscape(a: string, b: string, c: string)
    requires Proper(a) && Proper(b) && Proper(c)
    ensures Resolve([], ["", a, b, "..", c]) == [a, c]
  {
    var s0, s1, s2, s3, s4 := ["", a, b, "..", c], [a, b, "..", c], [b, "..", c], ["..", c], [c];
    assert s0[1..] == s1 && s1[1..] == s2 && s2[1..] == s3 && s3[1..] == s4 && s4[1..] == [];
    assert Step([], "") == [];
    assert Step([], a) == [a];
    assert Step([a], b) == [a, b];
    assert Step([a, b], "..") == [a];
    assert Step([a], c) == [a, c];
    assert Resolve([], s0) == Resolve([], s1);
    assert Resolve([], s1) == Resolve([a], s2);
    assert Resolve([a], s2) == Resolve([a, b], s3);
    assert Resolve([a, b], s3) == Resolve([a], s4);
    assert Resolve([a], s4) == Resolve([a, c], []);
  }

  /** `normpath` resolves "/a/b/../c" to "/a/c", for any proper a, b and c. */
  lemma EscapeNormalForm(a: string, b: string, c: string)
    requires Proper(a) && Proper(b) && Proper(c)
    ensures Abs("/", "/" + a + "/" + b + "/../" + c) == "/" + a + "/" + c
  {
    var segs := [a, b, "..", c];
    var p := "/" + a + "/" + b + "/../" + c;
    assert Join(segs[3..]) == c;
    assert Join(segs[2..]) == ".." + "/" + c;
    assert Join(segs[1..]) == b + "/" + (".." + "/" + c);
    assert Join(segs) == a + "/" + (b + "/" + (".." + "/" + c));
    assert p == "/" + Join(segs);
    assert '/' !in "..";
    SplitRooted(segs);
    ResolveEscape(a, b, c);
    assert p[1] == a[0];
    assert Lead(p) == "/";
    assert JoinCwd("/", p) == p;
    assert Join([a, c]) == a + "/" + c;
  }

  /** `normpath` resolves "/a/b/../c" to "/a/c". */
  lemma ParentEscapeNormalForm()
    ensures Abs("/", "/a/b/../c") == "/a/c"
  {
    assert Proper("a") && Proper("b") && Proper("c");
    EscapeNormalForm("a", "b", "c");
    assert "/" + "a" + "/" + "b" + "/../" + "c" == "/a/b/../c";
    assert "/" + "a" + "/" + "c" == "/a/c";
  }

  /** "/a/b" is already normal. */
  lemma NormalRootExample()
    ensures Abs("/", "/a/b") == "/a/b"
  {
    var r := Parts("/", ["a", "b"]);
    assert Join(r.segs) == "a/b" && Render(r) == "/a/b";
    assert Proper("a") && Proper("b");
    RenderIsNormal(r);
  }

  /** A ".." that climbs out of the root is caught: "/a/b/../c" is outside "/a/b". */
  lemma ParentEscapeRejected()
    ensures !WithinRoot("/", "/a/b", "/a/b/../c")
  {
    ParentEscapeNormalForm();
    NormalRootExample();
    assert "/a/c"[3] != "/a/b"[3];
  }

  // ---------------------------------------------------------------------------
  // dirname of a normalised path
  // ---------------------------------------------------------------------------

  /** The last slash of `x + "/" + y` is the one before `y` when `y` has none. */
  lemma {:induction false} LastSlashBefore(x: string, y: string)
    requires '/' !in y
    ensures LastSlash(x + "/" + y) == |x|
    decreases |y|
  {
    var s := x + "/" + y;
    if y != [] {
      assert s[|s| - 1] == y[|y| - 1];
      assert s[..|s| - 1] == x + "/" + y[..|y| - 1];
      LastSlashBefore(x, y[..|y| - 1]);
    }
  }

  /** The last character of a join of proper components is not a slash. */
  lemma JoinTail(segs: seq<string>)
    requires |segs| >= 1 && AllProper(segs)
    ensures |Join(segs)| > 0 && Join(segs)[|Join(segs)| - 1] != '/'
  {
    var n := |segs|;
    assert Proper(segs[n - 1]);
    if n > 1 {
      assert segs == segs[..n - 1] + [segs[n - 1]];
      JoinAppend(segs[..n - 1], [segs[n - 1]]);
    }
  }

  /** `os.path.dirname(x + "/" + name)` is `x` when `x` neither is made of slashes nor ends in one. */
  lemma DirnameOfSlashed(x: string, name: string)
    requires |x| >= 2 && x[1] != '/' && x[|x| - 1] != '/'
    requires '/' !in name
    ensures Dirname(x + "/" + name) == x
  {
    var s := x + "/" + name;
    LastSlashBefore(x, name);
    var head := s[..|x| + 1];
    assert head == x + "/";
    assert head[1] != '/';
    assert !AllSlashes(head);
    assert head[..|head| - 1] == x;
    assert RStripSlashes(head) == RStripSlashes(x);
  }

  /** `os.path.dirname` of a normalised absolute path (one leading slash) is the normalised
      path of its parent directory. */
  lemma DirnameOfNormal(segs: seq<string>)
    requires |segs| >= 1 && AllProper(segs)
    ensures Dirname(Render(Parts("/", segs))) == Render(Parts("/", segs[..|segs| - 1]))
    ensures LastComponent(Render(Parts("/", segs))) == segs[|segs| - 1]
  {
    var n := |segs|;
    var init, last := segs[..n - 1], segs[n - 1];
    assert Proper(last);
    var s := Render(Parts("/", segs));
    if n == 1 {
      assert s == "" + "/" + last;
      LastSlashBefore("", last);
      assert s[..1] == "/";
      assert AllSlashes("/");
    } else {
      assert segs == init + [last];
      JoinAppend(init, [last]);
      var x := "/" + Join(init);
      assert s == x + "/" + last;
      assert AllProper(init) by {
        forall i | 0 <= i < |init| ensures Proper(init[i]) { assert init[i] == segs[i]; }
      }
      JoinHead(init);
      JoinTail(init);
      assert x[1] == Join(init)[0];
      assert x[|x| - 1] == Join(init)[|Join(init)| - 1];
      DirnameOfSlashed(x, last);
      LastSlashBefore(x, last);
    }
  }

  /** A normalised ancestor is a strictly shorter string than the path. */
  lemma JoinStrictPrefix(segs: seq<string>, k: nat)
    requires AllProper(segs) && k < |segs|
    ensures |Join(segs[..k])| < |Join(segs)|
  {
    var a, b := segs[..k], segs[k..];
    assert segs == a + b;
    JoinHead(b);
    if k > 0 {
      JoinAppend(a, b);
    }
  }

  // ---------------------------------------------------------------------------
  // abspath of a path and of its directory part
  // ---------------------------------------------------------------------------

  /** Component-wise split of a path followed by a slash and one more component. */
  lemma {:induction false} SplitLast(y: string, n: string)
    requires '/' !in n
    ensures Split(y + "/" + n) == Split(y) + [n]
    decreases |y|
  {
    var s := y + "/" + n;
    if y == [] {
      assert s == "" + "/" + n;
      SplitAtSlash("", n);
      SplitName(n);
    } else {
      assert s[1..] == y[1..] + "/" + n;
      SplitLast(y[1..], n);
      if y[0] != '/' {
        var r := Split(y[1..]);
        assert Split(s[1..]) == r + [n];
        assert (r + [n])[0] == r[0] && (r + [n])[1..] == r[1..] + [n];
      }
    }
  }

  /** The `normpath` loop over one more component is one more step. */
  lemma {:induction false} ResolveSnoc(stack: seq<string>, segs: seq<string>, x: string)
    ensures Resolve(stack, segs + [x]) == Step(Resolve(stack, segs), x)
    decreases |segs|
  {
    if segs == [] {
      assert [] + [x] == [x];
    } else {
      assert (segs + [x])[0] == segs[0] && (segs + [x])[1..] == segs[1..] + [x];
      ResolveSnoc(Step(stack, segs[0]), segs[1..], x);
    }
  }

  /** `m` slashes. */
  function Slashes(m: nat): string
    decreases m
  {
    if m == 0 then "" else Slashes(m - 1) + "/"
  }

  /** Trailing slashes do not change the normal form. */
  lemma {:induction false} ResolveTrailingSlashes(x: string, m: nat)
    ensures Resolve([], Split(x + Slashes(m))) == Resolve([], Split(x))
    decreases m
  {
    if m == 0 {
      assert x + Slashes(0) == x;
    } else {
      var y := x + Slashes(m - 1);
      assert x + Slashes(m) == y + "/" + "";
      SplitLast(y, "");
      ResolveSnoc([], Split(y), "");
      ResolveTrailingSlashes(x, m - 1);
    }
  }

  /** `s.rstrip('/')` removes some number of trailing slashes, and something is left when `s`
      is not made of slashes only. */
  lemma {:induction false} RStripShape(s: string) returns (m: nat)
    ensures s == RStripSlashes(s) + Slashes(m)
    ensures !AllSlashes(s) ==> RStripSlashes(s) != ""
    decreases |s|
  {
    if s != [] && s[|s| - 1] == '/' {
      var init := s[..|s| - 1];
      m := RStripShape(init);
      assert s == init + "/";
      m := m + 1;
      if !AllSlashes(s) {
        assert !AllSlashes(init);
      }
    } else {
      m := 0;
      assert s == s + "";
    }
  }

  /** Appending to a non-empty path appends to its join onto the working directory. */
  lemma JoinCwdAppend(cwd: AbsolutePath, d: string, z: string)
    requires d != ""
    ensures JoinCwd(cwd, d + z) == JoinCwd(cwd, d) + z
  {
    assert (d + z)[0] == d[0];
    if !IsAbsolute(d) {
      if cwd[|cwd| - 1] == '/' {
        assert cwd + (d + z) == (cwd + d) + z;
      } else {
        assert cwd + "/" + (d + z) == (cwd + "/" + d) + z;
      }
    }
  }

  /** A directory part ending in a slash, then one more component: one more `normpath` step. */
  lemma HeadThenLast(cwd: AbsolutePath, head: string, n: string)
    requires head != "" && head[|head| - 1] == '/' && '/' !in n
    ensures AbsParts(cwd, head + n).segs == Step(AbsParts(cwd, head).segs, n)
  {
    JoinCwdAppend(cwd, head, n);
    var h := JoinCwd(cwd, head);
    assert h[|h| - 1] == '/' by {
      if !IsAbsolute(head) {
        assert h[|h| - 1] == head[|head| - 1];
      }
    }
    var y := h[..|h| - 1];
    assert h == y + "/" + "";
    assert JoinCwd(cwd, head + n) == y + "/" + n;
    SplitLast(y, n);
    SplitLast(y, "");
    ResolveSnoc([], Split(y), n);
    ResolveSnoc([], Split(y), "");
  }

  /** Stripping the trailing slashes of a directory part, as `dirname` does, keeps its
      normal form. */
  lemma StrippedHead(cwd: AbsolutePath, head: string)
    requires head != "" && !AllSlashes(head)
    ensures RStripSlashes(head) != ""
    ensures AbsParts(cwd, RStripSlashes(head)).segs == AbsParts(cwd, head).segs
  {
    var m := RStripShape(head);
    var d := RStripSlashes(head);
    JoinCwdAppend(cwd, d, Slashes(m));
    ResolveTrailingSlashes(JoinCwd(cwd, d), m);
  }

  /** `abspath(path)` is `abspath(dirname(path))` followed by one more `normpath` step over the
      last component, whenever the path has a slash (otherwise `dirname` is ""). */
  lemma DirnameThenLast(cwd: AbsolutePath, path: string)
    requires LastSlash(path) >= 0
    ensures Dirname(path) != ""
    ensures AbsParts(cwd, path).segs == Step(AbsParts(cwd, Dirname(path)).segs, LastComponent(path))
  {
    var i := LastSlash(path);
    var head, n := path[..i + 1], LastComponent(path);
    assert path == head + n;
    assert '/' !in n by {
      forall c | c in n ensures c != '/' {
        var j :| 0 <= j < |n| && n[j] == c;
        assert n[j] == path[i + 1 + j];
      }
    }
    HeadThenLast(cwd, head, n);
    if !AllSlashes(head) {
      StrippedHead(cwd, head);
    }
  }

  /** The two spellings "/" + x and "//" + x of one absolute path differ for the guard, which
      compares strings, but name one place on disk. */
  lemma DoubleSlashSameLocation(cwd: AbsolutePath, x: string)
    requires Proper(x)
    ensures Location(cwd, "//" + x) == Location(cwd, "/" + x)
    ensures Abs(cwd, "//" + x) == "//" + x && Abs(cwd, "/" + x) == "/" + x
  {
    var one, two := Parts("/", [x]), Parts("//", [x]);
    assert Render(one) == "/" + x && Render(two) == "//" + x;
    RenderIsNormal(one);
    RenderIsNormal(two);
  }

  /** `Split` is `Text.Split` with the separator "/". */
  lemma {:induction false} SplitIsTextSplit(s: string)
    ensures Split(s) == Text.Split(s, "/")
    decreases |s|
  {
    if s != [] {
      assert s[..1] == [s[0]];
      SplitIsTextSplit(s[1..]);
    }
  }

  /** `Join` is `Text.Join` with the separator "/" on one component or more. */
  lemma {:induction false} JoinIsTextJoin(segs: seq<string>)
    requires |segs| >= 1
    ensures Join(segs) == Text.Join(segs, "/")
    decreases |segs|
  {
    if |segs| > 1 {
      JoinIsTextJoin(segs[1..]);
    }
  }

  /** A trailing slash changes neither the place a path names nor its normal form, and makes
      it a path that names only a directory. */
  lemma TrailingSlash(cwd: AbsolutePath, p: string)
    requires p != ""
    ensures AbsParts(cwd, p + "/").segs == AbsParts(cwd, p).segs
    ensures Location(cwd, p + "/") == Location(cwd, p)
    ensures NamesDirectory(p + "/")
  {
    assert Slashes(1) == "/";
    JoinCwdAppend(cwd, p, Slashes(1));
    ResolveTrailingSlashes(JoinCwd(cwd, p), 1);
    LastSlashBefore(p, "");
    assert p + "/" == p + "/" + "";
  }
}
