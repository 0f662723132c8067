/** Relative module ids: what `a/../b` and `./c` mean, and the regular-expression rewriting that
    brings an id to its normal form (ModuleIdResolver in src/vs/loader.js). */
module ModuleIds {

  // ---- Ids as lists of segments ----

  function Split(s: string): (r: seq<string>)
    ensures |r| > 0
  {
    if s == "" then [""]
    else
      var rest := Split(s[1..]);
      if s[0] == '/' then [""] + rest else [[s[0]] + rest[0]] + rest[1..]
  }

  function Join(segments: seq<string>): string
    requires |segments| > 0
  {
    if |segments| == 1 then segments[0] else segments[0] + "/" + Join(segments[1..])
  }

  lemma {:induction false} SplitConcat(a: string, b: string)
    ensures Split(a + "/" + b) == Split(a) + Split(b)
  {
    if a == "" {
      assert (a + "/" + b)[1..] == b;
    } else {
      assert (a + "/" + b)[1..] == a[1..] + "/" + b;
      SplitConcat(a[1..], b);
    }
  }

  lemma {:induction false} SplitSegment(s: string)
    requires '/' !in s
    ensures Split(s) == [s]
  {
    if s != "" {
      SplitSegment(s[1..]);
      assert s == [s[0]] + s[1..];
    }
  }

  lemma {:induction false} SplitHasNoSlash(s: string)
    ensures forall i :: 0 <= i < |Split(s)| ==> '/' !in Split(s)[i]
  {
    if s != "" { SplitHasNoSlash(s[1..]); }
  }

  lemma {:induction false} JoinSplit(s: string)
    ensures Join(Split(s)) == s
  {
    if s != "" {
      JoinSplit(s[1..]);
      var rest := Split(s[1..]);
      if s[0] == '/' {
        assert (Split(s))[1..] == rest;
        assert Join(Split(s)) == "" + "/" + s[1..];
      } else if |rest| > 1 {
        assert Split(s)[1..] == rest[1..];
        assert Join(rest) == rest[0] + "/" + Join(rest[1..]);
        assert s == [s[0]] + s[1..];
        assert Join(Split(s)) == ([s[0]] + rest[0]) + "/" + Join(rest[1..]);
      } else {
        assert s == [s[0]] + s[1..];
      }
    }
  }

  lemma {:induction false} JoinConcat(a: seq<string>, b: seq<string>)
    requires |a| > 0 && |b| > 0
    ensures Join(a + b) == Join(a) + "/" + Join(b)
  {
    if |a| == 1 {
      assert (a + b)[1..] == b;
    } else {
      assert (a + b)[1..] == a[1..] + b;
      JoinConcat(a[1..], b);
      assert Join(a) == a[0] + "/" + Join(a[1..]);
      assert Join(a + b) == a[0] + "/" + (Join(a[1..]) + "/" + Join(b));
    }
  }

  // ---- What an id means ----

  /** A segment that `..` undoes. An empty one, as in `/a` or `a//b`, is not: nothing leads over it. */
  predicate IsName(segment: string) {
    segment != "" && segment != ".."
  }

  /** Path evaluation with a stack of segments. */
  function Follow(stack: seq<string>, segment: string): seq<string> {
    if segment == "." then stack
    else if segment == ".." && stack != [] && IsName(stack[|stack| - 1]) then stack[..|stack| - 1]
    else stack + [segment]
  }

  function Eval(stack: seq<string>, segments: seq<string>): seq<string>
    decreases |segments|
  {
    if segments == [] then stack else Eval(Follow(stack, segments[0]), segments[1..])
  }

  lemma {:induction false} EvalConcat(stack: seq<string>, a: seq<string>, b: seq<string>)
    ensures Eval(stack, a + b) == Eval(Eval(stack, a), b)
    decreases |a|
  {
    if a == [] {
      assert a + b == b;
    } else {
      assert (a + b)[1..] == a[1..] + b;
      EvalConcat(Follow(stack, a[0]), a[1..], b);
    }
  }

  function Directory(segments: seq<string>): seq<string>
    requires |segments| > 0
  {
    segments[..|segments| - 1]
  }

  function LastSegment(segments: seq<string>): string
    requires |segments| > 0
  {
    segments[|segments| - 1]
  }

  predicate NoEmpty(segments: seq<string>) {
    forall i :: 0 <= i < |segments| ==> segments[i] != ""
  }

  predicate NoDots(segments: seq<string>) {
    forall i :: 0 <= i < |segments| ==> segments[i] != "."
  }

  /** A name is directly followed by `..` at position i. */
  predicate Undone(segments: seq<string>, i: nat) {
    i + 1 < |segments| && IsName(segments[i]) && segments[i + 1] == ".."
  }

  ghost predicate NothingUndone(segments: seq<string>) {
    forall i: nat :: !Undone(segments, i)
  }

  /** The lists of segments that are their own value are those without `.` and without a name
      followed by `..`. */
  lemma {:induction false} NormalIfNothingUndone(segments: seq<string>)
    requires NoDots(segments) && NothingUndone(segments)
    ensures Eval([], segments) == segments
    decreases |segments|
  {
    if segments != [] {
      var n := |segments| - 1;
      var init := segments[..n];
      forall i: nat ensures !Undone(init, i) { assert !Undone(segments, i); }
      NormalIfNothingUndone(init);
      assert segments == init + [segments[n]];
      EvalConcat([], init, [segments[n]]);
      assert Eval(init, [segments[n]]) == Follow(init, segments[n]);
      if n > 0 { assert !Undone(segments, n - 1); }
    }
  }

  /** Evaluation always gives such a list. */
  lemma {:induction false} EvalIsNormal(segments: seq<string>)
    ensures NoDots(Eval([], segments)) && NothingUndone(Eval([], segments))
    decreases |segments|
  {
    if segments != [] {
      var n := |segments| - 1;
      EvalIsNormal(segments[..n]);
      assert segments == segments[..n] + [segments[n]];
      EvalConcat([], segments[..n], [segments[n]]);
      FollowIsNormal(Eval([], segments[..n]), segments[n]);
    }
  }

  lemma FollowIsNormal(stack: seq<string>, segment: string)
    requires NoDots(stack) && NothingUndone(stack)
    ensures NoDots(Follow(stack, segment)) && NothingUndone(Follow(stack, segment))
  {
    var next := Follow(stack, segment);
    forall i: nat ensures !Undone(next, i) { assert !Undone(stack, i); }
  }

  /** Where a list of segments without empty ones leads: so many levels up, then down through
      names. */
  datatype Location = Location(ups: nat, names: seq<string>)

  function Move(at: Location, segment: string): Location {
    if segment == "." then at
    else if segment == ".." then
      if at.names == [] then at.(ups := at.ups + 1) else at.(names := at.names[..|at.names| - 1])
    else at.(names := at.names + [segment])
  }

  function Place(at: Location, segments: seq<string>): Location {
    if segments == [] then at else Move(Place(at, segments[..|segments| - 1]), segments[|segments| - 1])
  }

  /** The one normal way to write a location: all the `..` first, then the names. */
  function Canonical(at: Location): seq<string> {
    seq(at.ups, _ => "..") + at.names
  }

  /** Without empty segments, the value of a list is the one normal way to write the place it
      leads to: `..` only in front. */
  lemma {:induction false} EvalIsPlace(segments: seq<string>)
    requires NoEmpty(segments)
    ensures Eval([], segments) == Canonical(Place(Location(0, []), segments))
    ensures forall name :: name in Place(Location(0, []), segments).names ==> IsName(name)
    decreases |segments|
  {
    if segments != [] {
      var n := |segments| - 1;
      EvalIsPlace(segments[..n]);
      assert segments == segments[..n] + [segments[n]];
      EvalConcat([], segments[..n], [segments[n]]);
      MoveIsFollow(Place(Location(0, []), segments[..n]), segments[n]);
    }
  }

  lemma MoveIsFollow(at: Location, segment: string)
    requires segment != "" && forall name :: name in at.names ==> IsName(name)
    ensures Follow(Canonical(at), segment) == Canonical(Move(at, segment))
    ensures forall name :: name in Move(at, segment).names ==> IsName(name)
  {
    var stack := Canonical(at);
    if at.names != [] {
      assert stack[|stack| - 1] == at.names[|at.names| - 1] && at.names[|at.names| - 1] in at.names;
      assert stack[..|stack| - 1] == seq(at.ups, _ => "..") + at.names[..|at.names| - 1];
    } else if at.ups > 0 {
      assert stack[|stack| - 1] == "..";
    }
  }

  /** An empty segment is a root of its own: nothing after it leads over it. */
  lemma {:induction false} EmptyIsRoot(below: seq<string>, stack: seq<string>, segments: seq<string>)
    ensures Eval(below + [""] + stack, segments) == below + [""] + Eval(stack, segments)
    decreases |segments|
  {
    if segments != [] {
      var all := below + [""] + stack;
      if stack != [] {
        assert all[|all| - 1] == stack[|stack| - 1];
        assert all[..|all| - 1] == below + [""] + stack[..|stack| - 1];
      }
      assert all + [segments[0]] == below + [""] + (stack + [segments[0]]);
      EmptyIsRoot(below, Follow(stack, segments[0]), segments[1..]);
    }
  }

  /** So what is before and what is after it are evaluated on their own. */
  lemma EmptySeparates(a: seq<string>, b: seq<string>)
    ensures Eval([], a + [""] + b) == Eval([], a) + [""] + Eval([], b)
  {
    assert a + [""] + b == a + ([""] + b);
    EvalConcat([], a, [""] + b);
    assert ([""] + b)[1..] == b;
    EmptyIsRoot(Eval([], a), [], b);
    assert Eval([], a) + [""] + [] == Eval([], a) + [""];
  }

  lemma DropDot(a: seq<string>, b: seq<string>)
    ensures Eval([], a + ["."] + b) == Eval([], a + b)
  {
    assert a + ["."] + b == a + (["."] + b);
    EvalConcat([], a, ["."] + b);
    EvalConcat([], a, b);
    assert (["."] + b)[1..] == b;
  }

  lemma DropUndone(a: seq<string>, name: string, b: seq<string>)
    requires name != "." && IsName(name)
    ensures Eval([], a + [name, ".."] + b) == Eval([], a + b)
  {
    assert a + [name, ".."] + b == a + ([name, ".."] + b);
    EvalConcat([], a, [name, ".."] + b);
    EvalConcat([], a, b);
    var at := Eval([], a);
    assert ([name, ".."] + b)[1..] == [".."] + b && ([".."] + b)[1..] == b;
    assert Follow(Follow(at, name), "..") == at;
  }

  // ---- Patterns in the text of an id ----

  predicate At(r: string, i: int, pattern: string) {
    0 <= i && i + |pattern| <= |r| && r[i..i + |pattern|] == pattern
  }

  /** `/name/../` starts at i; the name ends before j. */
  predicate UndoneAt(r: string, i: int, j: int) {
    0 <= i && i + 1 < j <= |r| && r[i] == '/' && '/' !in r[i + 1..j] && r[i + 1..j] != ".." && At(r, j, "/../")
  }

  /** The text starts with `name/../`, the name ending before j. */
  predicate UndonePrefix(r: string, j: int) {
    0 < j <= |r| && '/' !in r[..j] && r[..j] != ".." && At(r, j, "/../")
  }

  lemma SplitAround(segments: seq<string>, i: nat)
    requires 0 < i < |segments|
    ensures Join(segments) == Join(segments[..i]) + "/" + Join(segments[i..])
  {
    assert segments == segments[..i] + segments[i..];
    JoinConcat(segments[..i], segments[i..]);
  }

  lemma DotIsFound(r: string, i: nat)
    requires 0 < i < |Split(r)| - 1 && Split(r)[i] == "."
    ensures exists k :: At(r, k, "/./")
  {
    var segments := Split(r);
    JoinSplit(r);
    SplitAround(segments, i);
    assert segments[i..][1..] == segments[i + 1..];
    var a, b := Join(segments[..i]), Join(segments[i + 1..]);
    assert r == a + "/" + ("." + "/" + b);
    assert At(r, |a|, "/./");
  }

  lemma UndoneIsFound(r: string, i: nat)
    requires 0 < i && i + 2 < |Split(r)| && Undone(Split(r), i)
    ensures exists k, j :: UndoneAt(r, k, j)
  {
    var segments := Split(r);
    JoinSplit(r);
    SplitHasNoSlash(r);
    SplitAround(segments, i);
    assert segments[i..][1..] == segments[i + 1..] && segments[i + 1..][1..] == segments[i + 2..];
    var a, name, b := Join(segments[..i]), segments[i], Join(segments[i + 2..]);
    assert r == a + "/" + (name + "/" + (".." + "/" + b));
    assert r == a + "/" + name + "/../" + b;
    var j := |a| + 1 + |name|;
    assert r[|a| + 1..j] == name && r[j..j + 4] == "/../";
    assert UndoneAt(r, |a|, j);
  }

  lemma UndonePrefixIsFound(r: string)
    requires 2 < |Split(r)| && Undone(Split(r), 0)
    ensures exists j :: UndonePrefix(r, j)
  {
    var segments := Split(r);
    JoinSplit(r);
    SplitHasNoSlash(r);
    assert segments[1..][1..] == segments[2..];
    var name, b := segments[0], Join(segments[2..]);
    assert r == name + "/" + (".." + "/" + b);
    assert r == name + "/../" + b;
    assert r[..|name|] == name && r[|name|..|name| + 4] == "/../";
    assert UndonePrefix(r, |name|);
  }

  // ---- Rewriting keeps the meaning ----

  /** t leads where s leads, in the same last segment. */
  predicate SameSegments(s: seq<string>, t: seq<string>)
    requires |s| > 0 && |t| > 0
  {
    Eval([], Directory(t)) == Eval([], Directory(s)) && LastSegment(t) == LastSegment(s)
  }

  predicate SameMeaning(id: string, r: string) {
    SameSegments(Split(id), Split(r))
  }

  /** Dropping segments that do not matter before the last one. */
  lemma DropSegments(a: seq<string>, dropped: seq<string>, b: seq<string>)
    requires |b| > 0
    requires Eval([], a + dropped + Directory(b)) == Eval([], a + Directory(b))
    ensures SameSegments(a + dropped + b, a + b)
    ensures NoDots(Directory(a + dropped + b)) ==> NoDots(Directory(a + b))
  {
    DirectoryConcat(a + dropped, b);
    DirectoryConcat(a, b);
    FewerDots(a, dropped, Directory(b));
  }

  lemma DirectoryConcat(a: seq<string>, b: seq<string>)
    requires |b| > 0
    ensures Directory(a + b) == a + Directory(b) && LastSegment(a + b) == LastSegment(b)
  {}

  lemma FewerDots(a: seq<string>, dropped: seq<string>, b: seq<string>)
    ensures NoDots(a + dropped + b) ==> NoDots(a + b)
  {
    forall k | 0 <= k < |a + b| ensures (a + b)[k] == (a + dropped + b)[if k < |a| then k else k + |dropped|] {}
  }

  lemma SplitAfterSegment(segment: string, b: string)
    requires '/' !in segment
    ensures Split(segment + "/" + b) == [segment] + Split(b)
  {
    SplitConcat(segment, b);
    SplitSegment(segment);
  }

  lemma DotInside(r: string, i: nat)
    requires At(r, i, "/./")
    ensures r == r[..i] + "/" + ("." + "/" + r[i + 3..])
  {
    var t := r[i..i + 3];
    assert r == r[..i] + (t + r[i + 3..]);
    assert t + r[i + 3..] == "/" + ("." + "/" + r[i + 3..]);
  }

  lemma SplitDot(a: string, b: string)
    ensures Split(a + "/" + ("." + "/" + b)) == Split(a) + ["."] + Split(b)
  {
    SplitConcat(a, "." + "/" + b);
    SplitAfterSegment(".", b);
  }

  lemma RemoveDot(r: string, i: nat)
    requires At(r, i, "/./")
    ensures SameMeaning(r, r[..i] + "/" + r[i + 3..])
  {
    var a, b := r[..i], r[i + 3..];
    DotInside(r, i);
    SplitDot(a, b);
    SplitConcat(a, b);
    DropDot(Split(a), Directory(Split(b)));
    DropSegments(Split(a), ["."], Split(b));
  }

  /** The same at the front. */
  lemma DropLeading(dropped: seq<string>, b: seq<string>)
    requires |b| > 0 && Eval([], dropped + Directory(b)) == Eval([], Directory(b))
    ensures SameSegments(dropped + b, b)
  {
    assert Directory(dropped + b) == dropped + Directory(b);
    forall k | 0 <= k < |Directory(b)| ensures Directory(b)[k] in Directory(dropped + b) {
      assert Directory(b)[k] == Directory(dropped + b)[k + |dropped|];
    }
  }

  lemma RemoveLeadingDot(r: string)
    requires At(r, 0, "./")
    ensures SameMeaning(r, r[2..])
    ensures Split(r) == ["."] + Split(r[2..])
  {
    var b := r[2..];
    assert r == r[..2] + b;
    assert r == "." + "/" + b;
    SplitAfterSegment(".", b);
    assert (["."] + Directory(Split(b)))[1..] == Directory(Split(b));
    DropLeading(["."], Split(b));
  }

  lemma Regrouped(a: string, b: string)
    ensures a + "/../" + b == a + "/" + (".." + "/" + b)
  {
    assert "/../" + b == "/" + (".." + "/" + b);
    Assoc(a, "/../", b);
    Assoc(a, "/", ".." + "/" + b);
  }

  lemma Assoc(a: string, b: string, c: string)
    ensures (a + b) + c == a + (b + c)
  {}

  lemma SplitUndone(name: string, b: string)
    requires '/' !in name
    ensures Split(name + "/../" + b) == [name, ".."] + Split(b)
  {
    Regrouped(name, b);
    SplitAfterSegment(name, ".." + "/" + b);
    SplitAfterSegment("..", b);
  }

  lemma RemoveUndone(r: string, i: nat, j: nat)
    requires UndoneAt(r, i, j) && NoDots(Directory(Split(r)))
    ensures SameMeaning(r, r[..i] + "/" + r[j + 4..])
    ensures NoDots(Directory(Split(r[..i] + "/" + r[j + 4..])))
  {
    var a, name, b := r[..i], r[i + 1..j], r[j + 4..];
    assert r == a + "/" + name + r[j..j + 4] + b;
    assert r == a + "/" + (name + "/../" + b);
    SplitConcat(a, name + "/../" + b);
    SplitUndone(name, b);
    SplitConcat(a, b);
    assert Split(r) == Split(a) + [name, ".."] + Split(b);
    assert Directory(Split(r))[|Split(a)|] == name;
    DropUndone(Split(a), name, Directory(Split(b)));
    DropSegments(Split(a), [name, ".."], Split(b));
  }

  lemma RemoveUndonePrefix(r: string, j: nat)
    requires UndonePrefix(r, j) && NoDots(Directory(Split(r)))
    ensures SameMeaning(r, r[j + 4..])
    ensures Split(r) == [r[..j], ".."] + Split(r[j + 4..])
  {
    var name, b := r[..j], r[j + 4..];
    assert r == name + r[j..j + 4] + b;
    SplitUndone(name, b);
    assert Directory(Split(r))[0] == name;
    DropUndone([], name, Directory(Split(b)));
    assert [] + [name, ".."] + Directory(Split(b)) == [name, ".."] + Directory(Split(b));
    assert [] + Directory(Split(b)) == Directory(Split(b));
    DropLeading([name, ".."], Split(b));
  }

  // ---- ModuleIdResolver ----

  method FindDot(r: string) returns (i: int)
    ensures i == -1 ==> forall k :: !At(r, k, "/./")
    ensures i != -1 ==> At(r, i, "/./") && forall k :: 0 <= k < i ==> !At(r, k, "/./")
  {
    i := 0;
    while i + 3 <= |r|
      invariant 0 <= i
      invariant forall k :: 0 <= k < i ==> !At(r, k, "/./")
    {
      if r[i..i + 3] == "/./" { return; }
      i := i + 1;
    }
    i := -1;
  }

  method NextSlash(r: string, start: nat) returns (j: nat)
    requires start <= |r|
    ensures start <= j <= |r| && '/' !in r[start..j] && (j < |r| ==> r[j] == '/')
  {
    j := start;
    while j < |r| && r[j] != '/'
      invariant start <= j <= |r| && '/' !in r[start..j]
    {
      j := j + 1;
    }
  }

  /** A name that starts after i can only end at the next slash. */
  lemma NameEndsAtSlash(r: string, i: int, j: nat)
    requires -1 <= i && i + 1 <= j <= |r| && '/' !in r[i + 1..j] && (j < |r| ==> r[j] == '/')
    ensures forall l :: i + 1 < l <= |r| && '/' !in r[i + 1..l] && At(r, l, "/../") ==> l == j
  {
    forall l | i + 1 < l <= |r| && '/' !in r[i + 1..l] && At(r, l, "/../") ensures l == j {
      assert r[l] == r[l..l + 4][0];
    }
  }

  method FindUndone(r: string) returns (i: int, j: int)
    ensures i == -1 ==> forall k, l :: !UndoneAt(r, k, l)
    ensures i != -1 ==> UndoneAt(r, i, j) && forall k, l :: 0 <= k < i ==> !UndoneAt(r, k, l)
  {
    i, j := 0, 0;
    while i < |r|
      invariant 0 <= i <= |r|
      invariant forall k, l :: 0 <= k < i ==> !UndoneAt(r, k, l)
    {
      if r[i] == '/' {
        j := NextSlash(r, i + 1);
        if i + 1 < j && r[i + 1..j] != ".." && j + 4 <= |r| && r[j..j + 4] == "/../" { return; }
        NameEndsAtSlash(r, i, j);
      }
      i := i + 1;
    }
    i := -1;
  }

  /** The first two rewriting steps: `/./` becomes `/`, a leading `./` goes. */
  method RemoveDots(moduleId: string) returns (r: string)
    ensures SameMeaning(moduleId, r) && NoDots(Directory(Split(r)))
  {
    r := moduleId;
    var i := FindDot(r);
    while i != -1
      invariant SameMeaning(moduleId, r)
      invariant i == -1 ==> forall k :: !At(r, k, "/./")
      invariant i != -1 ==> At(r, i, "/./")
      decreases |r|
    {
      RemoveDot(r, i);
      r := r[..i] + "/" + r[i + 3..];
      i := FindDot(r);
    }
    forall k | 0 < k < |Split(r)| - 1 ensures Split(r)[k] != "." {
      if Split(r)[k] == "." { DotIsFound(r, k); }
    }
    if 2 <= |r| && r[..2] == "./" {
      RemoveLeadingDot(r);
      assert forall k :: 0 <= k < |Split(r[2..])| ==> Split(r[2..])[k] == Split(r)[k + 1];
      r := r[2..];
    } else {
      NoLeadingDot(r);
    }
  }

  /** The third step: `/name/../` becomes `/`. */
  method RemoveUndoneNames(moduleId: string) returns (r: string)
    requires NoDots(Directory(Split(moduleId)))
    ensures SameMeaning(moduleId, r) && NoDots(Directory(Split(r)))
    ensures forall k, l :: !UndoneAt(r, k, l)
  {
    r := moduleId;
    var i, j := FindUndone(r);
    while i != -1
      invariant SameMeaning(moduleId, r) && NoDots(Directory(Split(r)))
      invariant i == -1 ==> forall k, l :: !UndoneAt(r, k, l)
      invariant i != -1 ==> UndoneAt(r, i, j)
      decreases |r|
    {
      RemoveUndone(r, i, j);
      r := r[..i] + "/" + r[j + 4..];
      i, j := FindUndone(r);
    }
  }

  predicate Normalizes(moduleId: string, r: string) {
    Split(r) == Eval([], Directory(Split(moduleId))) + [LastSegment(Split(moduleId))]
  }

  /** _normalizeModuleId: the result is the value of the directory part of the id, and its last
      segment. */
  method NormalizeModuleId(moduleId: string) returns (r: string)
    ensures Normalizes(moduleId, r)
  {
    r := RemoveDots(moduleId);
    r := RemoveUndoneNames(r);
    ghost var before := r;
    var j := NextSlash(r, 0);
    if 0 < j && r[..j] != ".." && j + 4 <= |r| && r[j..j + 4] == "/../" {
      RemoveUndonePrefix(r, j);
      r := r[j + 4..];
    } else {
      NameEndsAtSlash(r, -1, j);
    }
    NothingUndoneLeft(before, r);
  }

  lemma NoLeadingDot(r: string)
    requires !(2 <= |r| && r[..2] == "./")
    ensures |Split(r)| > 1 ==> Split(r)[0] != "."
  {}

  lemma NoUndoneInside(r: string, i: nat)
    requires forall k, l :: !UndoneAt(r, k, l)
    requires 0 < i && i + 2 < |Split(r)|
    ensures !Undone(Split(r), i)
  {
    if Undone(Split(r), i) {
      UndoneIsFound(r, i);
    }
  }

  lemma NoUndoneFirst(r: string)
    requires forall l :: !UndonePrefix(r, l)
    requires 2 < |Split(r)|
    ensures !Undone(Split(r), 0)
  {
    if Undone(Split(r), 0) {
      UndonePrefixIsFound(r);
    }
  }

  lemma NormalTail(s: seq<string>, shift: nat)
    requires shift < |s| && NoDots(Directory(s))
    requires forall i: nat :: shift <= i && i + 2 < |s| ==> !Undone(s, i)
    ensures s[shift..] == Eval([], Directory(s[shift..])) + [LastSegment(s[shift..])]
  {
    var d := Directory(s[shift..]);
    assert d == Directory(s)[shift..];
    forall i: nat ensures !Undone(d, i) {
      if Undone(d, i) { assert Undone(s, i + shift); }
    }
    NormalIfNothingUndone(d);
    assert s[shift..] == d + [LastSegment(s[shift..])];
  }

  /** After the last rewriting step the id is in normal form. */
  lemma NothingUndoneLeft(before: string, r: string)
    requires NoDots(Directory(Split(before)))
    requires forall k, l :: !UndoneAt(before, k, l)
    requires (r == before && forall l :: !UndonePrefix(r, l)) || (|Split(before)| > 2 && Split(r) == Split(before)[2..])
    ensures Split(r) == Eval([], Directory(Split(r))) + [LastSegment(Split(r))]
  {
    forall i: nat | 0 < i && i + 2 < |Split(before)| ensures !Undone(Split(before), i) {
      NoUndoneInside(before, i);
    }
    if r == before {
      if 2 < |Split(r)| { NoUndoneFirst(r); }
      NormalTail(Split(r), 0);
      assert Split(r)[0..] == Split(r);
    } else {
      NormalTail(Split(before), 2);
    }
  }

  /** When is the whole id, last segment included, in normal form? */
  lemma WholeIdNormalIff(directory: seq<string>, last: string)
    ensures Eval([], directory) + [last] == Eval([], directory + [last])
       <==> last != "." && (last == ".." ==> Eval([], directory) == [] || !IsName(LastSegment(Eval([], directory))))
  {
    EvalConcat([], directory, [last]);
    var stack := Eval([], directory);
    assert Eval(stack, [last]) == Follow(stack, last);
    assert |stack + [last]| == |stack| + 1;
  }

  predicate StartsWith(s: string, prefix: string) {
    |prefix| <= |s| && s[..|prefix|] == prefix
  }

  predicate IsAbsolutePath(url: string) {
    StartsWith(url, "http://") || StartsWith(url, "https://") || StartsWith(url, "file://") || StartsWith(url, "/")
  }

  predicate IsRelative(request: string) {
    StartsWith(request, "./") || StartsWith(request, "../")
  }

  /** What resolving a request made by a module must give: a request that starts with the segment `.`
      or `..`, and does not end with it, names the place it leads to from the module's directory;
      every other stays as it is. */
  predicate ResolvesTo(fromModuleId: string, request: string, resolved: string) {
    var from, req := Split(fromModuleId), Split(request);
    if |req| > 1 && (req[0] == "." || req[0] == "..")
    then Split(resolved) == Eval(Eval([], from[..|from| - 1]), req[..|req| - 1]) + [req[|req| - 1]]
    else resolved == request
  }

  /** The test of the text is one of the first segment. */
  lemma RelativeIff(request: string)
    ensures IsRelative(request) <==> |Split(request)| > 1 && (Split(request)[0] == "." || Split(request)[0] == "..")
    ensures IsRelative(request) ==> !IsAbsolutePath(request)
  {
    if StartsWith(request, "./") {
      assert request == "." + "/" + request[2..];
      SplitAfterSegment(".", request[2..]);
    } else if StartsWith(request, "../") {
      assert request == ".." + "/" + request[3..];
      SplitAfterSegment("..", request[3..]);
    } else if |Split(request)| > 1 {
      JoinSplit(request);
    }
  }

  /** A request for `./x` leads to the module x beside the one that makes it. */
  lemma SiblingResolves(fromModuleId: string, x: string, resolved: string)
    requires '/' !in x && ResolvesTo(fromModuleId, "./" + x, resolved)
    requires Eval([], Directory(Split(fromModuleId))) == Directory(Split(fromModuleId))
    ensures Split(resolved) == Directory(Split(fromModuleId)) + [x]
  {
    assert "./" + x == "." + "/" + x;
    SplitAfterSegment(".", x);
    SplitSegment(x);
    var dir := Directory(Split(fromModuleId));
    assert [".", x][..1] == ["."] && ["."][1..] == [];
    assert Eval(dir, ["."]) == Eval(Follow(dir, "."), []);
  }

  /** A request for `../x` leads to the module x beside the directory of the one that makes it. */
  lemma ParentResolves(fromModuleId: string, x: string, resolved: string)
    requires '/' !in x && ResolvesTo(fromModuleId, "../" + x, resolved)
    requires Eval([], Directory(Split(fromModuleId))) == Directory(Split(fromModuleId))
    requires Directory(Split(fromModuleId)) != []
    requires LastSegment(Directory(Split(fromModuleId))) != "" && LastSegment(Directory(Split(fromModuleId))) != ".."
    ensures Split(resolved) == Directory(Directory(Split(fromModuleId))) + [x]
  {
    assert "../" + x == ".." + "/" + x;
    SplitAfterSegment("..", x);
    SplitSegment(x);
    var dir := Directory(Split(fromModuleId));
    assert ["..", x][..1] == [".."] && [".."][1..] == [];
    assert Eval(dir, [".."]) == Eval(Follow(dir, ".."), []);
  }

  /** A request that does not start with `./` or `../` stays as it is. */
  lemma OthersStay(fromModuleId: string, request: string)
    requires !("./" <= request) && !("../" <= request)
    ensures ResolvesTo(fromModuleId, request, request)
  {
    RelativeIff(request);
  }

  class ModuleIdResolver {
    ghost const fromModuleId: string
    const fromModulePath: string

    ghost predicate Valid() {
      (fromModulePath == "" && Directory(Split(fromModuleId)) == []) ||
      exists dir :: fromModulePath == dir + "/" && Split(dir) == Directory(Split(fromModuleId))
    }

    constructor (fromModuleId: string)
      ensures Valid() && this.fromModuleId == fromModuleId
    {
      var lastSlash := |fromModuleId|;
      while lastSlash > 0 && fromModuleId[lastSlash - 1] != '/'
        invariant 0 <= lastSlash <= |fromModuleId| && '/' !in fromModuleId[lastSlash..]
      {
        lastSlash := lastSlash - 1;
      }
      this.fromModuleId := fromModuleId;
      this.fromModulePath := fromModuleId[..lastSlash];
      new;
      SplitSegment(fromModuleId[lastSlash..]);
      if lastSlash > 0 {
        var dir := fromModuleId[..lastSlash - 1];
        assert fromModuleId[..lastSlash] == dir + "/";
        assert fromModuleId == dir + "/" + fromModuleId[lastSlash..];
        SplitConcat(dir, fromModuleId[lastSlash..]);
      } else {
        assert fromModuleId[0..] == fromModuleId;
      }
    }

    method ResolveModule(moduleId: string) returns (result: string)
      requires Valid()
      ensures ResolvesTo(fromModuleId, moduleId, result)
    {
      result := moduleId;
      OthersAreKept(moduleId);
      if !IsAbsolutePath(result) {
        if IsRelative(result) {
          result := NormalizeModuleId(fromModulePath + result);
          NormalizedResolves(moduleId, result);
        }
      }
    }

    lemma OthersAreKept(moduleId: string)
      ensures IsAbsolutePath(moduleId) || !IsRelative(moduleId) ==> ResolvesTo(fromModuleId, moduleId, moduleId)
    {
      RelativeIff(moduleId);
    }

    lemma NormalizedResolves(moduleId: string, result: string)
      requires Valid() && IsRelative(moduleId) && Normalizes(fromModulePath + moduleId, result)
      ensures ResolvesTo(fromModuleId, moduleId, result)
    {
      RelativeIff(moduleId);
      PathLeadsThroughDirectory(moduleId);
    }

    lemma PathLeadsThroughDirectory(moduleId: string)
      requires Valid()
      ensures Split(fromModulePath + moduleId) == Directory(Split(fromModuleId)) + Split(moduleId)
      ensures var path := Split(fromModulePath + moduleId);
              && LastSegment(path) == LastSegment(Split(moduleId))
              && Directory(path) == Directory(Split(fromModuleId)) + Directory(Split(moduleId))
              && Eval([], Directory(path))
                 == Eval(Eval([], Directory(Split(fromModuleId))), Directory(Split(moduleId)))
    {
      if fromModulePath == "" && Directory(Split(fromModuleId)) == [] {
        assert fromModulePath + moduleId == moduleId;
      } else {
        var dir :| fromModulePath == dir + "/" && Split(dir) == Directory(Split(fromModuleId));
        SplitConcat(dir, moduleId);
      }
      var from, req := Directory(Split(fromModuleId)), Split(moduleId);
      assert Directory(from + req) == from + Directory(req);
      EvalConcat([], from, Directory(req));
    }
  }
}
