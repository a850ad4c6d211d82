/** Removing the answer key from a documentation section (bench/sphinx_docs.py,
    `strip_for_query`, the line loop).

    A directive or link-target line hides itself and the run of blank or more
    deeply indented lines under it; a line ending in `::` hides the run under it.
    The loop jumps over runs; what is proved is that it keeps exactly the lines
    that no such line, at any depth, hides. */
module QueryText {
  import opened Basics
  import opened Text

  function StripLeft(s: string): string {
    if s != "" && IsPythonSpace(s[0]) then StripLeft(s[1..]) else s
  }

  function StripRight(s: string): string {
    if s != "" && IsPythonSpace(s[|s| - 1]) then StripRight(s[..|s| - 1]) else s
  }

  function Strip(s: string): string {
    StripRight(StripLeft(s))
  }

  lemma {:induction false} StripLeftShortens(s: string)
    ensures |StripLeft(s)| <= |s|
  {
    if s != "" && IsPythonSpace(s[0]) {
      StripLeftShortens(s[1..]);
    }
  }

  /** `len(line) - len(line.lstrip())` */
  function Indent(line: string): nat {
    StripLeftShortens(line);
    |line| - |StripLeft(line)|
  }

  predicate Blank(line: string) {
    Strip(line) == ""
  }

  predicate StartsWith(s: string, p: string) {
    p <= s
  }

  predicate IsLetter(c: char) {
    'a' <= c <= 'z' || 'A' <= c <= 'Z'
  }

  predicate IsNameChar(c: char): (r: bool)
    ensures r ==> c != ':' && !IsPythonSpace(c)
  {
    IsLetter(c) || '0' <= c <= '9' || c == '_' || c == '-'
  }

  function DropName(s: string): string {
    if s != "" && IsNameChar(s[0]) then DropName(s[1..]) else s
  }

  /** What follows `..` and at least one space; None when the line starts otherwise. */
  function AfterDots(stripped: string): Option<string> {
    if |stripped| >= 3 && stripped[..2] == ".." && IsPythonSpace(stripped[2]) then Some(StripLeft(stripped[2..])) else None
  }

  /** `^\.\.\s+([a-zA-Z][a-zA-Z0-9_-]*)::\s*(.*)$` */
  predicate MatchesDirective(stripped: string) {
    match AfterDots(stripped)
    case None => false
    case Some(rest) => rest != "" && IsLetter(rest[0]) && StartsWith(DropName(rest[1..]), "::")
  }

  function DropToColon(s: string): string {
    if s != "" && s[0] != ':' then DropToColon(s[1..]) else s
  }

  /** `^\.\.\s+_[^:]+:\s*$` */
  predicate MatchesTarget(stripped: string) {
    match AfterDots(stripped)
    case None => false
    case Some(rest) =>
      |rest| >= 2 && rest[0] == '_' && rest[1] != ':' &&
      DropToColon(rest[1..]) != "" && Blank(DropToColon(rest[1..])[1..])
  }

  predicate IsDirective(line: string) {
    MatchesDirective(Strip(line)) || MatchesTarget(Strip(line))
  }

  predicate IsLiteralIntro(line: string) {
    !IsDirective(line) && EndsWith(Strip(line), "::")
  }

  predicate IsDoctest(line: string) {
    StartsWith(Strip(line), ">>>") || StartsWith(Strip(line), "...")
  }

  // ----- what is hidden -----

  /** Lines under which a run is skipped. */
  predicate OpensRun(line: string) {
    IsDirective(line) || IsLiteralIntro(line)
  }

  predicate Deeper(line: string, indent: nat) {
    Blank(line) || Indent(line) > indent
  }

  /** Line `i` lies in the unbroken run of blank or deeper lines under line `h`. */
  predicate InRun(lines: seq<string>, h: nat, i: nat) {
    h < i < |lines| && forall j :: h < j <= i ==> Deeper(lines[j], Indent(lines[h]))
  }

  ghost predicate Hidden(lines: seq<string>, i: nat) {
    i < |lines| && (IsDirective(lines[i]) || exists h: nat :: h < i && OpensRun(lines[h]) && InRun(lines, h, i))
  }

  /** The lines of the body that reach the query. */
  ghost predicate Kept(lines: seq<string>, i: nat) {
    i < |lines| && !Hidden(lines, i) && (IsLiteralIntro(lines[i]) || !IsDoctest(lines[i]))
  }

  /** How a kept line is emitted: the `::` of a literal block's introduction goes. */
  function Emitted(line: string): string {
    if IsLiteralIntro(line) then
      var s := Strip(line);
      StripRight(s[..|s| - 2])
    else line
  }

  /** A line that opens a run is itself not blank. */
  lemma OpenersAreNotBlank(line: string)
    ensures OpensRun(line) ==> !Blank(line)
  {
  }

  /** Runs nest: what lies under a line that is itself in a run lies in that run.
      This is why jumping over the outer run loses nothing of the inner ones. */
  lemma RunsNest(lines: seq<string>, outer: nat, inner: nat, i: nat)
    requires InRun(lines, outer, inner) && InRun(lines, inner, i) && OpensRun(lines[inner])
    ensures InRun(lines, outer, i)
  {
    OpenersAreNotBlank(lines[inner]);
    assert Deeper(lines[inner], Indent(lines[outer]));
    forall j | outer < j <= i ensures Deeper(lines[j], Indent(lines[outer])) {
      if j > inner {
        assert Deeper(lines[j], Indent(lines[inner]));
      }
    }
  }

  /** A line that opens a run and lies in none: the only lines at which the loop skips. */
  ghost predicate Outermost(lines: seq<string>, h: nat) {
    h < |lines| && OpensRun(lines[h]) && forall g: nat :: g < h && OpensRun(lines[g]) ==> !InRun(lines, g, h)
  }

  lemma {:induction false} OutermostAbove(lines: seq<string>, h: nat, i: nat) returns (top: nat)
    requires h < |lines| && OpensRun(lines[h]) && InRun(lines, h, i)
    ensures top <= h && Outermost(lines, top) && InRun(lines, top, i)
    decreases h
  {
    if Outermost(lines, h) {
      top := h;
    } else {
      var g: nat :| g < h && OpensRun(lines[g]) && InRun(lines, g, h);
      RunsNest(lines, g, h, i);
      top := OutermostAbove(lines, g, i);
    }
  }

  /** Whatever is hidden at some depth is hidden by an outermost line, so skipping only
      at those, as the loop does, hides exactly what all of them together hide. */
  lemma HiddenByTheOutermost(lines: seq<string>, i: nat)
    requires i < |lines|
    ensures Hidden(lines, i) <==>
      IsDirective(lines[i]) || exists h: nat :: Outermost(lines, h) && InRun(lines, h, i)
  {
    if h: nat :| h < i && OpensRun(lines[h]) && InRun(lines, h, i) {
      var top := OutermostAbove(lines, h, i);
    }
  }

  // ----- the loop -----

  /** Every run opened before line `i` has ended at or before it. */
  ghost predicate AllRunsEnded(lines: seq<string>, i: nat) {
    i < |lines| ==> forall h: nat :: h < i && OpensRun(lines[h]) ==> !InRun(lines, h, i)
  }

  /** The line after a run opened at `i`: no earlier run, and none opened inside, reaches it. */
  lemma RunsEndTogether(lines: seq<string>, i: nat, next: nat)
    requires i < next < |lines| && AllRunsEnded(lines, i)
    requires forall j :: i < j < next ==> Deeper(lines[j], Indent(lines[i]))
    requires !Deeper(lines[next], Indent(lines[i]))
    ensures AllRunsEnded(lines, next)
  {
    forall h: nat | h < next && OpensRun(lines[h]) ensures !InRun(lines, h, next) {
      OpenersAreNotBlank(lines[h]);
      assert h < i && InRun(lines, h, next) ==> InRun(lines, h, i);
      assert h > i ==> Deeper(lines[h], Indent(lines[i]));
    }
  }

  lemma PlainStep(lines: seq<string>, i: nat)
    requires i < |lines| && AllRunsEnded(lines, i) && !OpensRun(lines[i])
    ensures AllRunsEnded(lines, i + 1)
  {
    if i + 1 < |lines| {
      forall h: nat | h < i + 1 && OpensRun(lines[h]) ensures !InRun(lines, h, i + 1) {
        assert h < i && InRun(lines, h, i + 1) ==> InRun(lines, h, i);
      }
    }
  }

  /** The inner loops: past the blank and deeper lines. */
  method SkipRun(lines: seq<string>, start: nat, indent: nat) returns (i: nat)
    requires start <= |lines|
    ensures start <= i <= |lines|
    ensures forall j :: start <= j < i ==> Deeper(lines[j], indent)
    ensures i < |lines| ==> !Deeper(lines[i], indent)
  {
    i := start;
    while i < |lines| && (Blank(lines[i]) || Indent(lines[i]) > indent)
      invariant start <= i <= |lines|
      invariant forall j :: start <= j < i ==> Deeper(lines[j], indent)
      decreases |lines| - i
    {
      i := i + 1;
    }
  }

  /** What becomes of line `i`: emitted, or None. */
  ghost function Fate(lines: seq<string>, i: nat): Option<string>
    requires i < |lines|
  {
    if Kept(lines, i) then Some(Emitted(lines[i])) else None
  }

  ghost function Fates(lines: seq<string>): (r: seq<Option<string>>)
    ensures |r| == |lines| && forall i :: 0 <= i < |r| ==> r[i] == Fate(lines, i)
  {
    seq(|lines|, i requires 0 <= i < |lines| => Fate(lines, i))
  }

  function Somes<T>(s: seq<Option<T>>): seq<T> {
    if s == [] then []
    else Somes(s[..|s| - 1]) + if s[|s| - 1].Some? then [s[|s| - 1].value] else []
  }

  lemma {:induction false} SomesOneMore<T>(s: seq<Option<T>>, i: nat)
    requires i < |s|
    ensures Somes(s[..i + 1]) == Somes(s[..i]) + if s[i].Some? then [s[i].value] else []
  {
    assert s[..i + 1][..i] == s[..i];
  }

  lemma {:induction false} SomesOfNothing<T>(s: seq<Option<T>>, i: nat, next: nat)
    requires i <= next <= |s| && forall j :: i <= j < next ==> s[j].None?
    ensures Somes(s[..next]) == Somes(s[..i])
    decreases next - i
  {
    if i < next {
      SomesOfNothing(s, i, next - 1);
      SomesOneMore(s, next - 1);
    }
  }

  /** `from` lists the places of the values, in order and leaving none out. */
  ghost predicate Places<T(!new)>(s: seq<Option<T>>, values: seq<T>, from: seq<nat>) {
    |from| == |values| &&
    (forall k, l :: 0 <= k < l < |from| ==> from[k] < from[l]) &&
    (forall k :: 0 <= k < |from| ==> from[k] < |s| && s[from[k]] == Some(values[k])) &&
    forall i: nat :: i < |s| && s[i].Some? ==> i in from
  }

  lemma PlacesOneMore<T(!new)>(s: seq<Option<T>>, x: Option<T>, values: seq<T>, from: seq<nat>)
    requires Places(s, values, from)
    ensures x.Some? ==> Places(s + [x], values + [x.value], from + [|s|])
    ensures x.None? ==> Places(s + [x], values, from)
  {
  }

  lemma {:induction false} SomesComeInOrder<T(!new)>(s: seq<Option<T>>) returns (from: seq<nat>)
    ensures Places(s, Somes(s), from)
  {
    from := [];
    if s != [] {
      var m := |s| - 1;
      from := SomesComeInOrder(s[..m]);
      PlacesOneMore(s[..m], s[m], Somes(s[..m]), from);
      assert s[..m] + [s[m]] == s;
      if s[m].Some? {
        from := from + [m];
      }
    }
  }

  /** What the loop decides at a line that no earlier run reaches. */
  lemma FateHere(lines: seq<string>, i: nat)
    requires i < |lines| && AllRunsEnded(lines, i)
    ensures OpensRun(lines[i]) ==> Fate(lines, i) == if IsLiteralIntro(lines[i]) then Some(Emitted(lines[i])) else None
    ensures !OpensRun(lines[i]) ==> Fate(lines, i) == if IsDoctest(lines[i]) then None else Some(lines[i])
  {
  }

  lemma FateInRun(lines: seq<string>, h: nat, j: nat)
    requires h < j < |lines| && OpensRun(lines[h])
    requires forall k :: h < k <= j ==> Deeper(lines[k], Indent(lines[h]))
    ensures Fate(lines, j).None?
  {
    assert InRun(lines, h, j);
  }

  /** What the query holds when the loop has come to line `i`, no run reaching that far. */
  ghost predicate QueryUpTo(lines: seq<string>, i: nat, out: seq<string>) {
    i <= |lines| && AllRunsEnded(lines, i) && out == Somes(Fates(lines)[..i])
  }

  lemma PastARun(lines: seq<string>, i: nat, next: nat, out: seq<string>)
    requires i < next <= |lines| && OpensRun(lines[i]) && QueryUpTo(lines, i, out)
    requires forall j :: i < j < next ==> Deeper(lines[j], Indent(lines[i]))
    requires next < |lines| ==> !Deeper(lines[next], Indent(lines[i]))
    ensures QueryUpTo(lines, next, out + if IsLiteralIntro(lines[i]) then [Emitted(lines[i])] else [])
  {
    var fates := Fates(lines);
    SomesOneMore(fates, i);
    FateHere(lines, i);
    forall j: nat | i < j < next ensures fates[j].None? {
      FateInRun(lines, i, j);
    }
    SomesOfNothing(fates, i + 1, next);
    if next < |lines| {
      RunsEndTogether(lines, i, next);
    }
  }

  lemma PastALine(lines: seq<string>, i: nat, out: seq<string>)
    requires i < |lines| && !OpensRun(lines[i]) && QueryUpTo(lines, i, out)
    ensures QueryUpTo(lines, i + 1, out + if IsDoctest(lines[i]) then [] else [lines[i]])
  {
    SomesOneMore(Fates(lines), i);
    FateHere(lines, i);
    PlainStep(lines, i);
  }

  lemma NothingYet(lines: seq<string>)
    ensures QueryUpTo(lines, 0, [])
  {
    assert Fates(lines)[..0] == [];
  }

  lemma AllOfIt(lines: seq<string>, out: seq<string>)
    requires QueryUpTo(lines, |lines|, out)
    ensures out == Somes(Fates(lines))
  {
    assert Fates(lines)[..|lines|] == Fates(lines);
  }

  /** The line loop of `strip_for_query`: exactly the kept lines, in order. */
  method StripForQuery(lines: seq<string>) returns (out: seq<string>)
    ensures out == Somes(Fates(lines))
  {
    out := [];
    var i := 0;
    NothingYet(lines);
    while i < |lines|
      invariant i <= |lines| && QueryUpTo(lines, i, out)
      decreases |lines| - i
    {
      var line := lines[i];
      if OpensRun(line) {
        var next := SkipRun(lines, i + 1, Indent(line));
        PastARun(lines, i, next, out);
        out := out + if IsLiteralIntro(line) then [Emitted(line)] else [];
        i := next;
      } else {
        PastALine(lines, i, out);
        out := out + if IsDoctest(line) then [] else [line];
        i := i + 1;
      }
    }
    AllOfIt(lines, out);
  }

  /** No directive line and no line in the run under a directive, a link target or a
      literal introduction reaches the query, at any depth; every emitted line comes
      from an input line of its own, in order, and every kept line gets there. */
  lemma {:induction false} NothingHiddenGetsOut(lines: seq<string>) returns (from: seq<nat>)
    ensures |from| == |Somes(Fates(lines))|
    ensures forall k, l :: 0 <= k < l < |from| ==> from[k] < from[l]
    ensures forall k :: 0 <= k < |from| ==> from[k] < |lines| && Kept(lines, from[k])
    ensures forall k :: 0 <= k < |from| ==> Somes(Fates(lines))[k] == Emitted(lines[from[k]])
    ensures forall i: nat :: Kept(lines, i) ==> i in from
  {
    var fates := Fates(lines);
    from := SomesComeInOrder(fates);
    forall k | 0 <= k < |from| ensures Kept(lines, from[k]) && Somes(fates)[k] == Emitted(lines[from[k]]) {
      assert fates[from[k]] == Fate(lines, from[k]);
    }
    forall i: nat | Kept(lines, i) ensures i in from {
      assert fates[i] == Fate(lines, i);
    }
  }

  /** Doctest lines are meant to go, but the literal-block branch is tried first. In the
      output of the loop, whose lines come from positions `from`, line `i` of a doctest is
      there exactly when it ends in `::` and no run hides it. */
  lemma {:induction false} DoctestGetsOutExactlyWhen(lines: seq<string>, i: nat) returns (from: seq<nat>)
    requires i < |lines| && IsDoctest(lines[i])
    ensures |from| == |Somes(Fates(lines))| && forall k, l :: 0 <= k < l < |from| ==> from[k] < from[l]
    ensures forall k :: 0 <= k < |from| ==> from[k] < |lines| && Somes(Fates(lines))[k] == Emitted(lines[from[k]])
    ensures i in from <==> EndsWith(Strip(lines[i]), "::") && !Hidden(lines, i)
  {
    from := NothingHiddenGetsOut(lines);
    if i in from {
      var k :| 0 <= k < |from| && from[k] == i;
      assert Kept(lines, from[k]);
    }
  }

  /** A text of one doctest line that reaches the query, less its colons. */
  lemma DoctestThatGetsOut()
    ensures IsDoctest(">>> f(a)[1::") && Somes(Fates([">>> f(a)[1::"])) == [">>> f(a)[1"]
  {
    var line := ">>> f(a)[1::";
    var lines := [line];
    OneDoctest(line);
    assert Kept(lines, 0);
    var fates := Fates(lines);
    assert fates[0] == Some(Emitted(line)) && fates[..0] == [];
    assert Somes(fates[..0]) == [];
    assert Somes(fates) == Somes(fates[..0]) + [Emitted(line)];
  }

  lemma OneDoctest(line: string)
    requires line == ">>> f(a)[1::"
    ensures IsDoctest(line) && IsLiteralIntro(line) && Emitted(line) == ">>> f(a)[1"
  {
    assert StripLeft(line) == line && StripRight(line) == line;
    assert AfterDots(line) == None;
    assert line[|line| - 2..] == "::";
    var head := ">>> f(a)[1";
    assert line[..|line| - 2] == head;
    assert StripRight(head) == head;
  }

  // ----- the patterns, as descriptions of a line -----

  ghost predicate AllPythonSpace(s: string) {
    forall i :: 0 <= i < |s| ==> IsPythonSpace(s[i])
  }

  lemma {:induction false} StripLeftIs(s: string) returns (spaces: string)
    ensures s == spaces + StripLeft(s) && AllPythonSpace(spaces)
    ensures StripLeft(s) != "" ==> !IsPythonSpace(StripLeft(s)[0])
  {
    spaces := "";
    if s != "" && IsPythonSpace(s[0]) {
      spaces := StripLeftIs(s[1..]);
      spaces := [s[0]] + spaces;
    }
  }

  lemma {:induction false} StripLeftOf(spaces: string, t: string)
    requires AllPythonSpace(spaces) && (t != "" ==> !IsPythonSpace(t[0]))
    ensures StripLeft(spaces + t) == t
  {
    if spaces == "" {
      assert spaces + t == t;
    } else {
      StripLeftOf(spaces[1..], t);
      assert (spaces + t)[1..] == spaces[1..] + t;
    }
  }

  lemma {:induction false} StripRightIs(s: string) returns (spaces: string)
    ensures s == StripRight(s) + spaces && AllPythonSpace(spaces)
    ensures StripRight(s) != "" ==> !IsPythonSpace(StripRight(s)[|StripRight(s)| - 1])
  {
    spaces := "";
    if s != "" && IsPythonSpace(s[|s| - 1]) {
      spaces := StripRightIs(s[..|s| - 1]);
      spaces := spaces + [s[|s| - 1]];
    }
  }

  /** Stripping takes white space off both ends, and all of it. */
  lemma StripIsExact(s: string) returns (front: string, back: string)
    ensures s == front + Strip(s) + back && AllPythonSpace(front) && AllPythonSpace(back)
    ensures Strip(s) != "" ==> !IsPythonSpace(Strip(s)[0]) && !IsPythonSpace(Strip(s)[|Strip(s)| - 1])
  {
    front := StripLeftIs(s);
    back := StripRightIs(StripLeft(s));
    if Strip(s) != "" {
      assert StripLeft(s)[0] == Strip(s)[0];
    }
  }

  /** A line is blank exactly when it is all white space, and its indent is the number of
      white space characters it starts with. */
  lemma BlankAndIndentExactly(line: string)
    ensures Blank(line) <==> AllPythonSpace(line)
    ensures Indent(line) <= |line| && AllPythonSpace(line[..Indent(line)])
    ensures Indent(line) < |line| ==> !IsPythonSpace(line[Indent(line)])
  {
    var front, back := StripIsExact(line);
    var spaces := StripLeftIs(line);
    assert line[..|spaces|] == spaces;
    if Strip(line) != "" {
      assert line[|front|] == Strip(line)[0];
    }
  }

  ghost predicate AllNameChars(s: string) {
    forall i :: 0 <= i < |s| ==> IsNameChar(s[i])
  }

  lemma {:induction false} DropNameIs(s: string) returns (name: string)
    ensures s == name + DropName(s) && AllNameChars(name)
  {
    name := "";
    if s != "" && IsNameChar(s[0]) {
      name := DropNameIs(s[1..]);
      name := [s[0]] + name;
    }
  }

  lemma {:induction false} DropNameOf(name: string, t: string)
    requires AllNameChars(name) && t != "" && !IsNameChar(t[0])
    ensures DropName(name + t) == t
  {
    if name == "" {
      assert name + t == t;
    } else {
      DropNameOf(name[1..], t);
      assert (name + t)[1..] == name[1..] + t;
    }
  }

  lemma {:induction false} DropToColonIs(s: string) returns (name: string)
    ensures s == name + DropToColon(s) && ':' !in name
    ensures DropToColon(s) != "" ==> DropToColon(s)[0] == ':'
  {
    name := "";
    if s != "" && s[0] != ':' {
      name := DropToColonIs(s[1..]);
      name := [s[0]] + name;
    }
  }

  lemma {:induction false} DropToColonOf(name: string, t: string)
    requires ':' !in name && t != "" && t[0] == ':'
    ensures DropToColon(name + t) == t
  {
    if name == "" {
      assert name + t == t;
    } else {
      DropToColonOf(name[1..], t);
      assert (name + t)[1..] == name[1..] + t;
    }
  }

  /** `AfterDots` finds what follows the dots and the white space after them. */
  lemma AfterDotsOf(spaces: string, t: string)
    requires spaces != "" && AllPythonSpace(spaces) && t != "" && !IsPythonSpace(t[0])
    ensures AfterDots(".." + spaces + t) == Some(t)
  {
    var s := ".." + spaces + t;
    assert s[..2] == ".." && s[2] == spaces[0] && s[2..] == spaces + t;
    StripLeftOf(spaces, t);
  }

  lemma AfterDotsIs(s: string) returns (spaces: string)
    requires AfterDots(s).Some?
    ensures s == ".." + spaces + AfterDots(s).value && spaces != "" && AllPythonSpace(spaces)
  {
    spaces := StripLeftIs(s[2..]);
    assert s == ".." + s[2..] && s[2..][0] == s[2];
  }

  ghost predicate IsDirectiveText(s: string, spaces: string, name: string, rest: string) {
    s == ".." + spaces + name + "::" + rest && spaces != "" && AllPythonSpace(spaces) &&
    name != "" && IsLetter(name[0]) && AllNameChars(name)
  }

  /** A directive is two dots, white space, a name that starts with a letter, two colons,
      and anything. */
  lemma DirectiveExactly(s: string)
    ensures MatchesDirective(s) <==> exists spaces, name, rest :: IsDirectiveText(s, spaces, name, rest)
  {
    if MatchesDirective(s) {
      var t := AfterDots(s).value;
      var spaces := AfterDotsIs(s);
      var more := DropNameIs(t[1..]);
      var rest := DropName(t[1..])[2..];
      assert DropName(t[1..]) == "::" + rest;
      assert t == [t[0]] + t[1..];
      assert s == ".." + spaces + ([t[0]] + more) + "::" + rest;
      assert IsDirectiveText(s, spaces, [t[0]] + more, rest);
    }
    if spaces, name, rest :| IsDirectiveText(s, spaces, name, rest) {
      var t := name + "::" + rest;
      assert s == ".." + spaces + t;
      AfterDotsOf(spaces, t);
      assert t[1..] == name[1..] + ("::" + rest);
      DropNameOf(name[1..], "::" + rest);
    }
  }

  ghost predicate IsTargetText(s: string, spaces: string, name: string, back: string) {
    s == ".." + spaces + "_" + name + ":" + back && spaces != "" && AllPythonSpace(spaces) &&
    name != "" && ':' !in name && AllPythonSpace(back)
  }

  /** A link target is two dots, white space, an underscore, a name without colons, one
      colon, and white space. */
  lemma TargetExactly(s: string)
    ensures MatchesTarget(s) <==> exists spaces, name, back :: IsTargetText(s, spaces, name, back)
  {
    if MatchesTarget(s) {
      var t := AfterDots(s).value;
      var spaces := AfterDotsIs(s);
      var name := DropToColonIs(t[1..]);
      var back := DropToColon(t[1..])[1..];
      BlankAndIndentExactly(back);
      assert DropToColon(t[1..]) == ":" + back;
      assert t == "_" + t[1..];
      assert s == ".." + spaces + "_" + name + ":" + back;
      assert IsTargetText(s, spaces, name, back);
    }
    if spaces, name, back :| IsTargetText(s, spaces, name, back) {
      var t := "_" + name + ":" + back;
      assert s == ".." + spaces + t;
      AfterDotsOf(spaces, t);
      assert t[1..] == name + (":" + back);
      DropToColonOf(name, ":" + back);
      BlankAndIndentExactly(back);
    }
  }

  /** The kinds of a line, by its stripped text: a directive or a link target; */
  lemma DirectiveLines(line: string)
    ensures IsDirective(line) <==>
      (exists spaces, name, rest :: IsDirectiveText(Strip(line), spaces, name, rest)) ||
      exists spaces, name, back :: IsTargetText(Strip(line), spaces, name, back)
  {
    DirectiveExactly(Strip(line));
    TargetExactly(Strip(line));
  }

  /** the introduction of a literal block, which ends in two colons and is neither; */
  lemma LiteralIntroLines(line: string)
    ensures IsLiteralIntro(line) <==> !IsDirective(line) && exists front :: Strip(line) == front + "::"
  {
    EndsWithExactly(Strip(line), "::");
  }

  /** a doctest line, which starts with its prompt or its continuation. */
  lemma DoctestLines(line: string)
    ensures IsDoctest(line) <==>
      (exists rest :: Strip(line) == ">>>" + rest) || exists rest :: Strip(line) == "..." + rest
  {
    StartsWithExactly(Strip(line), ">>>");
    StartsWithExactly(Strip(line), "...");
  }

  /** How a kept line is emitted: as it is, or, introducing a literal block, stripped and
      less its two colons and the white space before them. */
  lemma EmittedExactly(line: string) returns (spaces: string)
    ensures !IsLiteralIntro(line) ==> Emitted(line) == line
    ensures IsLiteralIntro(line) ==> Strip(line) == Emitted(line) + spaces + "::" && AllPythonSpace(spaces)
    ensures IsLiteralIntro(line) && Emitted(line) != "" ==> !IsPythonSpace(Emitted(line)[|Emitted(line)| - 1])
  {
    spaces := "";
    if IsLiteralIntro(line) {
      var s := Strip(line);
      EndsWithExactly(s, "::");
      spaces := StripRightIs(s[..|s| - 2]);
    }
  }
}
