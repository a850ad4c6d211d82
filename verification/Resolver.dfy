/** From a documented name to the file that defines it (bench/sphinx_docs.py:
    `is_test_path`, `SymbolIndex`).

    The walk over the tree and the parser are a parameter: the files under the
    package in sorted order, each with its top-level nodes or None where it does not
    parse. */
module Resolver {
  import opened Basics
  import opened Text

  datatype Node = ClassDef(name: string, body: seq<Node>) | FunctionDef(name: string) | OtherNode

  datatype SourceFile = SourceFile(path: string, tree: Option<seq<Node>>)

  type Multimap = map<string, set<string>>

  datatype Index = Index(modules: map<string, string>, defs: Multimap, qualnames: Multimap, defining: set<string>)

  datatype Outcome = AsModule | EmptyModule | Symbol | Qualname | Ambiguous | UnknownModule

  datatype Answer = Answer(path: Option<string>, outcome: Outcome)

  // ----- names of files -----

  function RemoveSuffix(s: string, suffix: string): string {
    if EndsWith(s, suffix) then s[..|s| - |suffix|] else s
  }

  predicate IsTestPath(rel: string) {
    var parts := Split(rel, '/');
    var name := parts[|parts| - 1];
    "tests" in parts || "test_" <= name || EndsWith(RemoveSuffix(name, ".py"), "_test")
  }

  function WithDots(s: string): string {
    if s == "" then "" else [if s[0] == '/' then '.' else s[0]] + WithDots(s[1..])
  }

  function Dotted(rel: string): string {
    RemoveSuffix(WithDots(rel[..if |rel| < 3 then 0 else |rel| - 3]), ".__init__")
  }

  /** `path.rsplit("/", 1)[0] + "/"` */
  function Directory(path: string): string {
    if '/' in path then UpToLastSlash(path) else path + "/"
  }

  function UpToLastSlash(path: string): string {
    if path == "" || path[|path| - 1] == '/' then path else UpToLastSlash(path[..|path| - 1])
  }

  // ----- the index -----

  function Lookup(m: Multimap, k: string): set<string> {
    if k in m then m[k] else {}
  }

  /** `m.setdefault(k, set()).add(p)` */
  function AddTo(m: Multimap, k: string, p: string): (r: Multimap)
    ensures forall q :: Lookup(r, q) == Lookup(m, q) + (if q == k then {p} else {})
  {
    m[k := Lookup(m, k) + {p}]
  }

  function AddMethods(m: Multimap, class_: string, body: seq<Node>, rel: string): Multimap {
    if body == [] then m
    else
      var init := AddMethods(m, class_, body[..|body| - 1], rel);
      var last := body[|body| - 1];
      if last.FunctionDef? then AddTo(init, class_ + "." + last.name, rel) else init
  }

  function AddNode(ix: Index, node: Node, rel: string): Index {
    if node.OtherNode? then ix
    else
      var named := ix.(defs := AddTo(ix.defs, node.name, rel), defining := ix.defining + {rel});
      if node.ClassDef? then named.(qualnames := AddMethods(ix.qualnames, node.name, node.body, rel)) else named
  }

  function AddTree(ix: Index, tree: seq<Node>, rel: string): Index {
    if tree == [] then ix else AddNode(AddTree(ix, tree[..|tree| - 1], rel), tree[|tree| - 1], rel)
  }

  function AddFile(ix: Index, f: SourceFile): Index {
    if IsTestPath(f.path) then ix
    else
      var known := ix.(modules := ix.modules[Dotted(f.path) := f.path]);
      match f.tree
      case None => known
      case Some(tree) => AddTree(known, tree, f.path)
  }

  function IndexOf(files: seq<SourceFile>): Index {
    if files == [] then Index(map[], map[], map[], {})
    else AddFile(IndexOf(files[..|files| - 1]), files[|files| - 1])
  }

  // ----- what the index holds -----

  predicate Names(node: Node, name: string) {
    !node.OtherNode? && node.name == name
  }

  ghost predicate TreeNames(tree: seq<Node>, name: string) {
    exists k :: 0 <= k < |tree| && Names(tree[k], name)
  }

  /** `f` is a non-test file with a top-level class or function called `name`. */
  ghost predicate Defines(f: SourceFile, name: string) {
    !IsTestPath(f.path) && f.tree.Some? && TreeNames(f.tree.value, name)
  }

  ghost predicate DefinedIn(files: seq<SourceFile>, name: string, p: string) {
    exists i :: 0 <= i < |files| && files[i].path == p && Defines(files[i], name)
  }

  function Owners(ix: Index, name: string): set<string> {
    Lookup(ix.defs, name)
  }

  lemma {:induction false} TreeOwners(ix: Index, tree: seq<Node>, rel: string, name: string)
    ensures Owners(AddTree(ix, tree, rel), name) == Owners(ix, name) + (if TreeNames(tree, name) then {rel} else {})
  {
    if tree != [] {
      var init, last := tree[..|tree| - 1], tree[|tree| - 1];
      TreeOwners(ix, init, rel, name);
      assert tree == init + [last];
      assert TreeNames(init, name) ==> TreeNames(tree, name);
      assert Names(last, name) ==> TreeNames(tree, name);
    }
  }

  /** The owners of a name are exactly the non-test files that define it at top level. */
  lemma {:induction false} OwnersAreExact(files: seq<SourceFile>, name: string, p: string)
    ensures p in Owners(IndexOf(files), name) <==> DefinedIn(files, name, p)
  {
    if files != [] {
      var init, last := files[..|files| - 1], files[|files| - 1];
      OwnersAreExact(init, name, p);
      assert files == init + [last];
      assert DefinedIn(init, name, p) ==> DefinedIn(files, name, p);
      assert last.path == p && Defines(last, name) ==> DefinedIn(files, name, p);
      if last.tree.Some? {
        var known := IndexOf(init).(modules := IndexOf(init).modules[Dotted(last.path) := last.path]);
        TreeOwners(known, last.tree.value, last.path, name);
      }
    }
  }

  ghost predicate HasMethod(class_: string, body: seq<Node>, q: string) {
    exists k :: 0 <= k < |body| && body[k].FunctionDef? && q == class_ + "." + body[k].name
  }

  ghost predicate NodeHasMethod(node: Node, q: string) {
    node.ClassDef? && HasMethod(node.name, node.body, q)
  }

  ghost predicate TreeHasMethod(tree: seq<Node>, q: string) {
    exists k :: 0 <= k < |tree| && NodeHasMethod(tree[k], q)
  }

  /** `f` is a non-test file in which a top-level class defines the method `q`. */
  ghost predicate DefinesMethod(f: SourceFile, q: string) {
    !IsTestPath(f.path) && f.tree.Some? && TreeHasMethod(f.tree.value, q)
  }

  ghost predicate MethodDefinedIn(files: seq<SourceFile>, q: string, p: string) {
    exists i :: 0 <= i < |files| && files[i].path == p && DefinesMethod(files[i], q)
  }

  lemma {:induction false} MethodOwners(m: Multimap, class_: string, body: seq<Node>, rel: string, q: string)
    ensures Lookup(AddMethods(m, class_, body, rel), q) == Lookup(m, q) + if HasMethod(class_, body, q) then {rel} else {}
  {
    if body != [] {
      var init, last := body[..|body| - 1], body[|body| - 1];
      MethodOwners(m, class_, init, rel, q);
      assert body == init + [last];
      assert HasMethod(class_, init, q) ==> HasMethod(class_, body, q);
      assert last.FunctionDef? && q == class_ + "." + last.name ==> HasMethod(class_, body, q);
    }
  }

  lemma {:induction false} TreeMethods(ix: Index, tree: seq<Node>, rel: string, q: string)
    ensures Lookup(AddTree(ix, tree, rel).qualnames, q) == Lookup(ix.qualnames, q) + if TreeHasMethod(tree, q) then {rel} else {}
  {
    if tree != [] {
      var init, last := tree[..|tree| - 1], tree[|tree| - 1];
      TreeMethods(ix, init, rel, q);
      if last.ClassDef? {
        MethodOwners(AddTree(ix, init, rel).qualnames, last.name, last.body, rel, q);
      }
      assert tree == init + [last];
      assert TreeHasMethod(init, q) ==> TreeHasMethod(tree, q);
      assert NodeHasMethod(last, q) ==> TreeHasMethod(tree, q);
    }
  }

  /** The owners of `C.m` are exactly the non-test files whose top-level class `C` defines `m`. */
  lemma {:induction false} MethodOwnersAreExact(files: seq<SourceFile>, q: string, p: string)
    ensures p in Lookup(IndexOf(files).qualnames, q) <==> MethodDefinedIn(files, q, p)
  {
    if files != [] {
      var init, last := files[..|files| - 1], files[|files| - 1];
      MethodOwnersAreExact(init, q, p);
      assert files == init + [last];
      assert MethodDefinedIn(init, q, p) ==> MethodDefinedIn(files, q, p);
      assert last.path == p && DefinesMethod(last, q) ==> MethodDefinedIn(files, q, p);
      if last.tree.Some? {
        var known := IndexOf(init).(modules := IndexOf(init).modules[Dotted(last.path) := last.path]);
        TreeMethods(known, last.tree.value, last.path, q);
      }
    }
  }

  /** What every index built from a tree satisfies. */
  ghost predicate Coherent(ix: Index) {
    (forall name, p :: p in Lookup(ix.defs, name) ==> p in ix.defining) &&
    (forall p :: p in ix.defining ==> exists name :: p in Lookup(ix.defs, name)) &&
    forall q, p :: p in Lookup(ix.qualnames, q) ==> p in Lookup(ix.defs, Head(q))
  }

  /** The first component of a dotted name. */
  function Head(dotted: string): string {
    Split(dotted, '.')[0]
  }

  /** Python identifiers hold no dot. */
  ghost predicate Identifiers(tree: seq<Node>) {
    forall k :: 0 <= k < |tree| ==> tree[k].OtherNode? || '.' !in tree[k].name
  }

  ghost predicate AllIdentifiers(files: seq<SourceFile>) {
    forall i :: 0 <= i < |files| && files[i].tree.Some? ==> Identifiers(files[i].tree.value)
  }

  lemma {:induction false} MethodsBelongToTheClass(m: Multimap, class_: string, body: seq<Node>, rel: string, q: string, p: string)
    requires '.' !in class_ && p in Lookup(AddMethods(m, class_, body, rel), q)
    ensures p in Lookup(m, q) || (p == rel && Head(q) == class_)
  {
    if body != [] {
      var last := body[|body| - 1];
      if p in Lookup(AddMethods(m, class_, body[..|body| - 1], rel), q) {
        MethodsBelongToTheClass(m, class_, body[..|body| - 1], rel, q, p);
      } else {
        SplitAtSeparator(class_, '.', last.name);
      }
    }
  }

  lemma NodeKeepsCoherent(ix: Index, node: Node, rel: string)
    requires Coherent(ix) && (node.OtherNode? || '.' !in node.name)
    ensures Coherent(AddNode(ix, node, rel))
  {
    if !node.OtherNode? {
      var r := AddNode(ix, node, rel);
      assert rel in Lookup(r.defs, node.name);
      forall p | p in r.defining ensures exists name :: p in Lookup(r.defs, name) {
        if p in ix.defining {
          var name :| p in Lookup(ix.defs, name);
          assert p in Lookup(r.defs, name);
        }
      }
      forall q, p | p in Lookup(r.qualnames, q) ensures p in Lookup(r.defs, Head(q)) {
        if node.ClassDef? {
          MethodsBelongToTheClass(ix.qualnames, node.name, node.body, rel, q, p);
        }
      }
    }
  }

  lemma {:induction false} TreeKeepsCoherent(ix: Index, tree: seq<Node>, rel: string)
    requires Coherent(ix) && Identifiers(tree)
    ensures Coherent(AddTree(ix, tree, rel))
  {
    if tree != [] {
      TreeKeepsCoherent(ix, tree[..|tree| - 1], rel);
      NodeKeepsCoherent(AddTree(ix, tree[..|tree| - 1], rel), tree[|tree| - 1], rel);
    }
  }

  lemma {:induction false} IndexIsCoherent(files: seq<SourceFile>)
    requires AllIdentifiers(files)
    ensures Coherent(IndexOf(files))
  {
    if files != [] {
      var init, last := files[..|files| - 1], files[|files| - 1];
      assert forall i :: 0 <= i < |init| ==> init[i] == files[i];
      IndexIsCoherent(init);
      var ix := IndexOf(init);
      if last.tree.Some? {
        TreeKeepsCoherent(ix.(modules := ix.modules[Dotted(last.path) := last.path]), last.tree.value, last.path);
      }
    }
  }

  lemma {:induction false} TreeKeepsModules(ix: Index, tree: seq<Node>, rel: string)
    ensures AddTree(ix, tree, rel).modules == ix.modules
  {
    if tree != [] {
      TreeKeepsModules(ix, tree[..|tree| - 1], rel);
    }
  }

  predicate HasName(f: SourceFile, dotted: string) {
    !IsTestPath(f.path) && Dotted(f.path) == dotted
  }

  /** File `i` is the one a dotted name stands for: the last non-test file so named. */
  ghost predicate StandsFor(files: seq<SourceFile>, dotted: string, i: nat) {
    i < |files| && HasName(files[i], dotted) && forall j :: i < j < |files| ==> !HasName(files[j], dotted)
  }

  /** A dotted name is a module exactly when some non-test file has that name, and it
      stands for the last such file. */
  lemma {:induction false} ModulesAreExact(files: seq<SourceFile>, dotted: string)
    ensures dotted in IndexOf(files).modules <==> exists i: nat :: StandsFor(files, dotted, i)
    ensures forall i: nat :: StandsFor(files, dotted, i) ==> dotted in IndexOf(files).modules && IndexOf(files).modules[dotted] == files[i].path
  {
    if files != [] {
      var n := |files| - 1;
      var init, last := files[..n], files[n];
      ModulesAreExact(init, dotted);
      ModulesOfLast(files);
      if HasName(last, dotted) {
        assert StandsFor(files, dotted, n);
      } else {
        forall i: nat ensures StandsFor(files, dotted, i) <==> StandsFor(init, dotted, i) {
          StandsForInit(files, dotted, i);
        }
      }
    }
  }

  lemma {:induction false} ModulesOfLast(files: seq<SourceFile>)
    requires files != []
    ensures IndexOf(files).modules ==
            var ix, last := IndexOf(files[..|files| - 1]), files[|files| - 1];
            if IsTestPath(last.path) then ix.modules else ix.modules[Dotted(last.path) := last.path]
  {
    var ix, last := IndexOf(files[..|files| - 1]), files[|files| - 1];
    if last.tree.Some? {
      TreeKeepsModules(ix.(modules := ix.modules[Dotted(last.path) := last.path]), last.tree.value, last.path);
    }
  }

  lemma {:induction false} StandsForInit(files: seq<SourceFile>, dotted: string, i: nat)
    requires files != [] && !HasName(files[|files| - 1], dotted)
    ensures StandsFor(files, dotted, i) <==> StandsFor(files[..|files| - 1], dotted, i)
  {
    var init := files[..|files| - 1];
    assert files == init + [files[|files| - 1]];
  }

  // ----- resolution -----

  function Under(owners: set<string>, directory: string): (r: set<string>)
    ensures r <= owners && forall o :: o in r <==> o in owners && directory <= o
  {
    set o | o in owners && directory <= o
  }

  function Only(s: set<string>): (p: string)
    requires |s| == 1
    ensures s == {p}
  {
    OneElement(s);
    var p :| p in s && s == {p};
    p
  }

  lemma OneElement(s: set<string>)
    requires |s| == 1
    ensures exists p :: p in s && s == {p}
  {
    var p :| p in s;
    assert |s - {p}| == 0;
    assert s == {p};
  }

  /** `reexported`; None is the pair (None, ""). */
  function Reexported(ix: Index, name: string, modulePath: string): Option<Answer> {
    var owners := Owners(ix, name);
    var narrowed := Under(owners, Directory(modulePath));
    if |owners| > 1 && |narrowed| == 1 then Some(Answer(Some(Only(narrowed)), Symbol))
    else
      var left := if |owners| > 1 && narrowed != {} then narrowed else owners;
      if |left| == 1 then Some(Answer(Some(Only(left)), Symbol))
      else if |left| > 1 then Some(Answer(None, Ambiguous))
      else None
  }

  function TheModule(ix: Index, path: string): Answer {
    if path in ix.defining then Answer(Some(path), AsModule) else Answer(None, EmptyModule)
  }

  /** The part of a dotted target that follows the module it names. */
  function Within(ix: Index, path: string, rest: string): Answer {
    if path in Owners(ix, Head(rest)) then Answer(Some(path), Symbol)
    else if path in Lookup(ix.qualnames, rest) then Answer(Some(path), Qualname)
    else
      match Reexported(ix, Head(rest), path)
      case Some(answer) => answer
      case None => TheModule(ix, path)
  }

  /** A target none of whose proper prefixes is a module. */
  function Bare(ix: Index, target: string, context: Option<string>): Answer {
    if context.Some? && context.value != "" && context.value in ix.modules && ix.modules[context.value] != "" then
      var path := ix.modules[context.value];
      if path in Owners(ix, Head(target)) then Answer(Some(path), Symbol)
      else
        match Reexported(ix, Head(target), path)
        case Some(answer) => answer
        case None => TheModule(ix, path)
    else
      var owners := Owners(ix, Head(target));
      if |owners| == 1 then Answer(Some(Only(owners)), Symbol)
      else if |owners| > 1 then Answer(None, Ambiguous)
      else Answer(None, UnknownModule)
  }

  function Prefix(target: string, cut: nat): string
    requires cut <= |Split(target, '.')|
  {
    Join(Split(target, '.')[..cut], '.')
  }

  function Rest(target: string, cut: nat): string
    requires cut <= |Split(target, '.')|
  {
    Join(Split(target, '.')[cut..], '.')
  }

  /** The length of the longest prefix of at most `cut` components naming a module; 0 when none does. */
  function LongestPrefix(ix: Index, target: string, cut: nat): (r: nat)
    requires cut <= |Split(target, '.')|
    ensures r <= cut && (r > 0 ==> Prefix(target, r) in ix.modules)
    ensures forall k: nat :: r < k <= cut ==> Prefix(target, k) !in ix.modules
  {
    if cut == 0 || Prefix(target, cut) in ix.modules then cut else LongestPrefix(ix, target, cut - 1)
  }

  function Resolve(ix: Index, target: string, context: Option<string>): Answer {
    if target in ix.modules then TheModule(ix, ix.modules[target])
    else
      var cut := LongestPrefix(ix, target, |Split(target, '.')| - 1);
      if cut > 0 then Within(ix, ix.modules[Prefix(target, cut)], Rest(target, cut))
      else Bare(ix, target, context)
  }

  // ----- the class -----

  class SymbolIndex {
    var modules: map<string, string>
    var defs: Multimap
    var qualnames: Multimap
    var defining: set<string>

    function Snapshot(): Index
      reads this
    {
      Index(modules, defs, qualnames, defining)
    }

    constructor (files: seq<SourceFile>)
      ensures Snapshot() == IndexOf(files)
    {
      modules, defs, qualnames, defining := map[], map[], map[], {};
      new;
      Build(files);
    }

    method Build(files: seq<SourceFile>)
      requires Snapshot() == IndexOf([])
      modifies this
      ensures Snapshot() == IndexOf(files)
    {
      for n := 0 to |files|
        invariant Snapshot() == IndexOf(files[..n])
      {
        assert files[..n + 1][..n] == files[..n];
        var file := files[n];
        if IsTestPath(file.path) {
          continue;
        }
        modules := modules[Dotted(file.path) := file.path];
        if file.tree.Some? {
          Collect(file.tree.value, file.path);
        }
      }
      assert files[..|files|] == files;
    }

    method Collect(tree: seq<Node>, rel: string)
      modifies this
      ensures Snapshot() == AddTree(old(Snapshot()), tree, rel)
    {
      for n := 0 to |tree|
        invariant Snapshot() == AddTree(old(Snapshot()), tree[..n], rel)
      {
        assert tree[..n + 1][..n] == tree[..n];
        var node := tree[n];
        if !node.OtherNode? {
          defs, defining := AddTo(defs, node.name, rel), defining + {rel};
        }
        if node.ClassDef? {
          CollectMethods(node.name, node.body, rel);
        }
      }
      assert tree[..|tree|] == tree;
    }

    method CollectMethods(class_: string, body: seq<Node>, rel: string)
      modifies this`qualnames
      ensures qualnames == AddMethods(old(qualnames), class_, body, rel)
    {
      for n := 0 to |body|
        invariant qualnames == AddMethods(old(qualnames), class_, body[..n], rel)
      {
        assert body[..n + 1][..n] == body[..n];
        if body[n].FunctionDef? {
          qualnames := AddTo(qualnames, class_ + "." + body[n].name, rel);
        }
      }
      assert body[..|body|] == body;
    }

    method ResolveTarget(target: string, context: Option<string>) returns (answer: Answer)
      ensures answer == Resolve(Snapshot(), target, context)
    {
      if target in modules {
        return TheModule(Snapshot(), modules[target]);
      }
      var parts := Split(target, '.');
      var cut := |parts| - 1;
      while cut > 0
        invariant 0 <= cut < |parts|
        invariant LongestPrefix(Snapshot(), target, |parts| - 1) == LongestPrefix(Snapshot(), target, cut)
      {
        var dotted := Join(parts[..cut], '.');
        if dotted in modules {
          return Within(Snapshot(), modules[dotted], Join(parts[cut..], '.'));
        }
        cut := cut - 1;
      }
      return Bare(Snapshot(), target, context);
    }
  }

  // ----- what an answer means -----

  /** Where the reference is looked up: the name, and the module it is named through, if any. */
  datatype Reference = Reference(name: string, through: Option<string>)

  function ReferenceOf(ix: Index, target: string, context: Option<string>): Reference {
    var cut := LongestPrefix(ix, target, |Split(target, '.')| - 1);
    if cut > 0 then Reference(Split(target, '.')[cut], Some(ix.modules[Prefix(target, cut)]))
    else if context.Some? && context.value != "" && context.value in ix.modules && ix.modules[context.value] != "" then
      Reference(Split(target, '.')[0], Some(ix.modules[context.value]))
    else Reference(Split(target, '.')[0], None)
  }

  /** `p` is the one sensible home of the reference: the named module itself, or else
      the only definition under its directory, or else the only definition there is. */
  ghost predicate Home(ix: Index, ref: Reference, p: string) {
    var owners := Owners(ix, ref.name);
    p in owners &&
    match ref.through
    case None => owners == {p}
    case Some(m) => p == m || (m !in owners && (owners == {p} || Under(owners, Directory(m)) == {p}))
  }

  /** Two candidates remain: neither the module itself nor its directory tells them apart. */
  ghost predicate Undecided(ix: Index, ref: Reference, p: string, q: string) {
    var owners := Owners(ix, ref.name);
    p in owners && q in owners && p != q &&
    match ref.through
    case None => true
    case Some(m) =>
      m !in owners && (Under(owners, Directory(m)) == {} || (Directory(m) <= p && Directory(m) <= q))
  }

  lemma SizeOfOne(s: set<string>, p: string)
    requires p in s
    ensures |s| == 1 <==> s == {p}
    ensures |s| > 1 <==> exists q :: q in s && q != p
  {
    assert s == {p} + (s - {p});
    if q :| q in s && q != p {
      assert {p, q} <= s;
      SubsetSize({p, q}, s);
    }
  }

  lemma ReexportedIsHome(ix: Index, name: string, m: string, p: string)
    requires m !in Owners(ix, name)
    ensures Reexported(ix, name, m) == Some(Answer(Some(p), Symbol)) <==> Home(ix, Reference(name, Some(m)), p)
  {
    var owners := Owners(ix, name);
    var narrowed := Under(owners, Directory(m));
    if p in owners {
      SizeOfOne(owners, p);
    }
    if p in narrowed {
      SizeOfOne(narrowed, p);
    }
  }

  lemma TwoElements(s: set<string>)
    ensures |s| > 1 <==> exists p, q :: p in s && q in s && p != q
  {
    if |s| > 1 {
      var p :| p in s;
      SizeOfOne(s, p);
    }
    if p, q :| p in s && q in s && p != q {
      SizeOfOne(s, p);
    }
  }

  lemma ReexportedIsUndecided(ix: Index, name: string, m: string)
    requires m !in Owners(ix, name)
    ensures Reexported(ix, name, m) == Some(Answer(None, Ambiguous)) <==> exists p, q :: Undecided(ix, Reference(name, Some(m)), p, q)
  {
    var ref := Reference(name, Some(m));
    var owners := Owners(ix, name);
    var narrowed := Under(owners, Directory(m));
    TwoElements(owners);
    TwoElements(narrowed);
    SubsetSize(narrowed, owners);
    if Reexported(ix, name, m) == Some(Answer(None, Ambiguous)) {
      var p, q :| p in owners && q in owners && p != q && (narrowed == {} || (p in narrowed && q in narrowed));
      assert Undecided(ix, ref, p, q);
    }
    if p, q :| Undecided(ix, ref, p, q) {
      assert |owners| > 1;
      assert narrowed != {} ==> p in narrowed && q in narrowed;
    }
  }

  lemma HeadOfRest(target: string, cut: nat)
    requires cut < |Split(target, '.')|
    ensures Head(Rest(target, cut)) == Split(target, '.')[cut]
  {
    var parts := Split(target, '.');
    PartsAreFree(target, '.');
    SplitOfJoin(parts[cut..], '.');
  }

  /** `symbol` with file `p` is answered exactly when `p` is the home of the reference,
      `ambiguous` exactly when two candidates remain, the fallbacks exactly when
      nothing defines the name, and `qualname` never. The fallback of a reference through
      a module is the module's file if that defines anything, and nothing otherwise. */
  ghost predicate Meets(ix: Index, ref: Reference, answer: Answer) {
    (forall p :: answer == Answer(Some(p), Symbol) <==> Home(ix, ref, p)) &&
    (answer == Answer(None, Ambiguous) <==> exists p, q :: Undecided(ix, ref, p, q)) &&
    (answer.outcome in {AsModule, EmptyModule, UnknownModule} <==> Owners(ix, ref.name) == {}) &&
    (Owners(ix, ref.name) == {} ==>
      match ref.through
      case None => answer == Answer(None, UnknownModule)
      case Some(m) => if m in ix.defining then answer == Answer(Some(m), AsModule) else answer == Answer(None, EmptyModule)) &&
    answer.outcome != Qualname
  }

  /** The steps common to a target with a module prefix and one under a module context. */
  function Through(ix: Index, name: string, m: string): Answer {
    if m in Owners(ix, name) then Answer(Some(m), Symbol)
    else
      match Reexported(ix, name, m)
      case Some(answer) => answer
      case None => TheModule(ix, m)
  }

  lemma ThroughMeets(ix: Index, name: string, m: string)
    ensures Meets(ix, Reference(name, Some(m)), Through(ix, name, m))
  {
    if m !in Owners(ix, name) {
      forall p ensures Through(ix, name, m) == Answer(Some(p), Symbol) <==> Home(ix, Reference(name, Some(m)), p) {
        ReexportedIsHome(ix, name, m, p);
      }
      ReexportedIsUndecided(ix, name, m);
    }
  }

  lemma {:induction false} BareMeets(ix: Index, target: string)
    ensures Meets(ix, Reference(Head(target), None), Bare(ix, target, None))
  {
    var owners := Owners(ix, Head(target));
    TwoElements(owners);
    forall p | p in owners ensures |owners| == 1 <==> owners == {p} {
      SizeOfOne(owners, p);
    }
    if p, q :| p in owners && q in owners && p != q {
      assert Undecided(ix, Reference(Head(target), None), p, q);
    }
  }

  /** A file that defines `C.m` defines `C`, so the `qualname` branch adds nothing. */
  lemma WithinIsThrough(ix: Index, path: string, rest: string)
    requires Coherent(ix)
    ensures Within(ix, path, rest) == Through(ix, Head(rest), path)
  {
  }

  lemma {:induction false} ResolveIsExact(ix: Index, target: string, context: Option<string>)
    requires Coherent(ix) && target !in ix.modules
    ensures Meets(ix, ReferenceOf(ix, target, context), Resolve(ix, target, context))
  {
    var cut := LongestPrefix(ix, target, |Split(target, '.')| - 1);
    var ref := ReferenceOf(ix, target, context);
    if cut > 0 {
      HeadOfRest(target, cut);
      WithinIsThrough(ix, ref.through.value, Rest(target, cut));
    }
    if ref.through.Some? {
      ThroughMeets(ix, ref.name, ref.through.value);
    } else {
      BareMeets(ix, target);
    }
  }

  /** A returned file is a non-test file that defines at least one class or function. */
  lemma {:induction false} AnswersAreDefiningFiles(files: seq<SourceFile>, target: string, context: Option<string>)
    requires AllIdentifiers(files)
    ensures match Resolve(IndexOf(files), target, context).path
            case None => true
            case Some(p) => exists name :: DefinedIn(files, name, p)
  {
    var ix := IndexOf(files);
    var answer := Resolve(ix, target, context);
    IndexIsCoherent(files);
    if answer.path.Some? {
      var p := answer.path.value;
      if target !in ix.modules {
        ResolveIsExact(ix, target, context);
      }
      assert p in ix.defining;
      var name :| p in Lookup(ix.defs, name);
      OwnersAreExact(files, name, p);
    }
  }

  /** A `symbol` answer is a non-test file that defines the very name referred to. */
  lemma {:induction false} SymbolsAreDefinedThere(files: seq<SourceFile>, target: string, context: Option<string>, p: string)
    requires AllIdentifiers(files) && Resolve(IndexOf(files), target, context) == Answer(Some(p), Symbol)
    ensures DefinedIn(files, ReferenceOf(IndexOf(files), target, context).name, p)
  {
    var ix := IndexOf(files);
    IndexIsCoherent(files);
    ResolveIsExact(ix, target, context);
    OwnersAreExact(files, ReferenceOf(ix, target, context).name, p);
  }

  lemma {:induction false} LongestPrefixIs(ix: Index, target: string, cut: nat, from: nat)
    requires 0 < cut <= from <= |Split(target, '.')| && Prefix(target, cut) in ix.modules
    requires forall k: nat :: cut < k <= from ==> Prefix(target, k) !in ix.modules
    ensures LongestPrefix(ix, target, from) == cut
  {
    if cut < from {
      LongestPrefixIs(ix, target, cut, from - 1);
    }
  }

  lemma {:induction false} DecidedByModule(ix: Index, target: string, cut: nat, context: Option<string>)
    requires 0 < cut < |Split(target, '.')| && Prefix(target, cut) in ix.modules && target !in ix.modules
    requires forall k: nat :: cut < k < |Split(target, '.')| ==> Prefix(target, k) !in ix.modules
    ensures Resolve(ix, target, context) == Within(ix, ix.modules[Prefix(target, cut)], Rest(target, cut))
  {
    LongestPrefixIs(ix, target, cut, |Split(target, '.')| - 1);
  }

  /** Looking inside a module asks nothing of the table of modules. */
  lemma {:induction false} WithinIgnoresModules(ix: Index, modules: map<string, string>, path: string, rest: string)
    ensures Within(ix, path, rest) == Within(ix.(modules := modules), path, rest)
  {
  }

  /** The longest proper prefix naming a module decides alone: no other module of the
      index and no module context has a say. */
  lemma {:induction false} LongestModuleDecides(ix: Index, target: string, cut: nat, context: Option<string>, context': Option<string>)
    requires 0 < cut < |Split(target, '.')| && Prefix(target, cut) in ix.modules && target !in ix.modules
    requires forall k: nat :: cut < k < |Split(target, '.')| ==> Prefix(target, k) !in ix.modules
    ensures var only := map[Prefix(target, cut) := ix.modules[Prefix(target, cut)]];
            Resolve(ix, target, context) == Resolve(ix.(modules := only), target, context')
  {
    var path := ix.modules[Prefix(target, cut)];
    var only := map[Prefix(target, cut) := path];
    DecidedByModule(ix, target, cut, context);
    assert forall k: nat :: cut < k < |Split(target, '.')| ==> Prefix(target, k) !in only;
    DecidedByModule(ix.(modules := only), target, cut, context');
    WithinIgnoresModules(ix, only, path, Rest(target, cut));
  }

  /** Every definition is found under its own full name: `dotted.name` leads back to the
      file the dotted path stands for, under any context, exactly when `dotted.name` is
      not a module of its own. */
  lemma {:induction false} FullNamesLeadBack(files: seq<SourceFile>, i: nat, name: string, context: Option<string>)
    requires AllIdentifiers(files) && i < |files| && StandsFor(files, Dotted(files[i].path), i)
    requires Defines(files[i], name) && '.' !in name
    ensures var target := Dotted(files[i].path) + "." + name;
            Resolve(IndexOf(files), target, context) == Answer(Some(files[i].path), Symbol) <==> target !in IndexOf(files).modules
  {
    var ix, dotted, p := IndexOf(files), Dotted(files[i].path), files[i].path;
    var target := dotted + "." + name;
    IndexIsCoherent(files);
    ModulesAreExact(files, dotted);
    assert DefinedIn(files, name, p);
    OwnersAreExact(files, name, p);
    if target !in ix.modules {
      var parts := Split(target, '.');
      SplitAtLastSeparator(dotted, '.', name);
      JoinOfSplit(dotted, '.');
      assert parts[..|parts| - 1] == Split(dotted, '.');
      LongestPrefixIs(ix, target, |parts| - 1, |parts| - 1);
      ResolveIsExact(ix, target, context);
      assert Home(ix, ReferenceOf(ix, target, context), p);
    }
  }

  /** A target that is itself a module is answered with that module's file if it defines
      anything, whatever the context. */
  lemma WholeModulesAnswer(ix: Index, target: string, context: Option<string>)
    requires target in ix.modules
    ensures ix.modules[target] in ix.defining ==> Resolve(ix, target, context) == Answer(Some(ix.modules[target]), AsModule)
    ensures ix.modules[target] !in ix.defining ==> Resolve(ix, target, context) == Answer(None, EmptyModule)
  {
  }

  // ----- file names, from their components -----

  ghost predicate IsPathOf(rel: string, components: seq<string>) {
    components != [] && rel == Join(components, '/') && forall k :: 0 <= k < |components| ==> '/' !in components[k]
  }

  /** A test path has a component `tests`, or a file name that starts with `test_`, or
      one that ends in `_test` once a final `.py` is taken off. */
  lemma {:induction false} TestPathsExactly(rel: string, components: seq<string>)
    requires IsPathOf(rel, components)
    ensures var name := components[|components| - 1];
      IsTestPath(rel) <==>
        "tests" in components || (exists rest :: name == "test_" + rest) ||
        (exists stem :: name == stem + "_test.py") ||
        (exists stem :: name == stem + "_test" && forall other :: name != other + ".py")
  {
    SplitOfJoin(components, '/');
    TestNamesExactly(components[|components| - 1]);
    assert Split(rel, '/') == components;
  }

  lemma TestNamesExactly(name: string)
    ensures "test_" <= name <==> exists rest :: name == "test_" + rest
    ensures EndsWith(RemoveSuffix(name, ".py"), "_test") <==>
      (exists stem :: name == stem + "_test.py") ||
      (exists stem :: name == stem + "_test" && forall other :: name != other + ".py")
  {
    StartsWithExactly(name, "test_");
    EndsWithExactly(name, ".py");
    if EndsWith(name, ".py") {
      TestFileNames(name[..|name| - 3]);
    } else {
      EndsWithExactly(name, "_test");
      assert forall stem :: stem + "_test.py" == (stem + "_test") + ".py";
    }
  }

  lemma TestFileNames(base: string)
    ensures EndsWith(base, "_test") <==> exists stem :: base + ".py" == stem + "_test.py"
  {
    EndsWithExactly(base, "_test");
    if stem :| base == stem + "_test" {
      assert base + ".py" == stem + "_test.py";
    }
    if stem :| base + ".py" == stem + "_test.py" {
      assert (base + ".py")[..|base|] == base && (stem + "_test.py")[..|base|] == stem + "_test";
    }
  }

  lemma {:induction false} WithDotsOfAppend(a: string, b: string)
    ensures WithDots(a + b) == WithDots(a) + WithDots(b)
  {
    if a == "" {
      assert a + b == b;
    } else {
      WithDotsOfAppend(a[1..], b);
      assert (a + b)[1..] == a[1..] + b;
    }
  }

  lemma {:induction false} WithDotsOfName(s: string)
    requires '/' !in s
    ensures WithDots(s) == s
  {
    if s != "" {
      WithDotsOfName(s[1..]);
    }
  }

  lemma {:induction false} WithDotsOfPath(components: seq<string>)
    requires forall k :: 0 <= k < |components| ==> '/' !in components[k]
    ensures WithDots(Join(components, '/')) == Join(components, '.')
  {
    if |components| == 1 {
      WithDotsOfName(components[0]);
    } else if |components| > 1 {
      var rest := Join(components[1..], '/');
      WithDotsOfPath(components[1..]);
      WithDotsOfName(components[0]);
      WithDotsOfAppend(components[0] + ['/'], rest);
      WithDotsOfAppend(components[0], ['/']);
      assert WithDots(['/']) == ['.'];
    }
  }

  /** The dotted name of a file joins its components by dots, the `.py` gone, and a last
      component `__init__` gone with its dot: `a/b.py` is `a.b`, and so is `a/b/__init__.py`. */
  lemma {:induction false} DottedNames(components: seq<string>)
    requires components != [] && forall k :: 0 <= k < |components| ==> '/' !in components[k]
    ensures forall stem :: Join(components, '.') == stem + ".__init__" ==> Dotted(Join(components, '/') + ".py") == stem
    ensures (forall stem :: Join(components, '.') != stem + ".__init__") ==>
      Dotted(Join(components, '/') + ".py") == Join(components, '.')
  {
    var rel := Join(components, '/') + ".py";
    var dotted := Join(components, '.');
    WithDotsOfPath(components);
    assert rel[..|rel| - 3] == Join(components, '/');
    assert Dotted(rel) == RemoveSuffix(dotted, ".__init__");
    EndsWithExactly(dotted, ".__init__");
    forall stem | dotted == stem + ".__init__" ensures Dotted(rel) == stem {
    }
  }

  /** The directory of a path: all of it up to the last slash, that included; a path
      without one gets a slash of its own. */
  lemma {:induction false} DirectoriesExactly(path: string)
    ensures '/' !in path ==> Directory(path) == path + "/"
    ensures forall dir, name :: path == dir + "/" + name && '/' !in name ==> Directory(path) == dir + "/"
  {
    forall dir, name | path == dir + "/" + name && '/' !in name ensures Directory(path) == dir + "/" {
      assert path[|dir|] == '/';
      UpToTheSlash(dir, name);
    }
  }

  lemma {:induction false} UpToTheSlash(dir: string, name: string)
    requires '/' !in name
    ensures UpToLastSlash(dir + "/" + name) == dir + "/"
  {
    var path := dir + "/" + name;
    if name == "" {
      assert path == dir + "/";
    } else {
      UpToTheSlash(dir, name[..|name| - 1]);
      assert path[..|path| - 1] == dir + "/" + name[..|name| - 1];
    }
  }
}
