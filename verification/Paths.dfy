/** Slash-separated paths, as the sequence of their segments. */
module Paths {

  predicate Empty(segment: string) {
    segment == "" || segment == "."
  }

  predicate Up(segment: string) {
    segment == ".."
  }

  function Push(stack: seq<string>, segment: string, rooted: bool): seq<string> {
    if Empty(segment) then stack
    else if !Up(segment) then stack + [segment]
    else if stack != [] && !Up(stack[|stack| - 1]) then stack[..|stack| - 1]
    else if rooted then stack
    else stack + [segment]
  }

  /** path.Clean, on segments. */
  function Clean(segments: seq<string>, rooted: bool): seq<string> {
    if segments == [] then []
    else Push(Clean(segments[..|segments| - 1], rooted), segments[|segments| - 1], rooted)
  }

  ghost predicate Normal(stack: seq<string>, rooted: bool) {
    && (forall i :: 0 <= i < |stack| ==> !Empty(stack[i]) && (Up(stack[i]) ==> !rooted))
    && (forall i, j :: 0 <= i < j < |stack| && Up(stack[j]) ==> Up(stack[i]))
  }

  lemma {:induction false} CleanIsNormal(segments: seq<string>, rooted: bool)
    ensures Normal(Clean(segments, rooted), rooted)
  {
    hide Empty, Up;
    if segments == [] {
    } else {
      CleanIsNormal(segments[..|segments| - 1], rooted);
    }
  }

  lemma {:induction false} NormalIsClean(stack: seq<string>, rooted: bool)
    requires Normal(stack, rooted)
    ensures Clean(stack, rooted) == stack
  {
    hide Empty, Up;
    if stack == [] {
    } else {
      NormalIsClean(stack[..|stack| - 1], rooted);
    }
  }

  lemma CleanTwice(dir: seq<string>, rooted: bool)
    ensures Clean(Clean(dir, rooted), rooted) == Clean(dir, rooted)
  {
    hide *;
    CleanIsNormal(dir, rooted);
    NormalIsClean(Clean(dir, rooted), rooted);
  }

  lemma Front(a: seq<string>, b: seq<string>)
    requires b != []
    ensures (a + b)[..|a + b| - 1] == a + b[..|b| - 1] && (a + b)[|a + b| - 1] == b[|b| - 1]
  {
  }

  lemma {:induction false} CleanJoins(dir: seq<string>, path: seq<string>, rooted: bool)
    ensures Clean(Clean(dir, rooted) + path, rooted) == Clean(dir + path, rooted)
  {
    hide Push;
    if path == [] {
      CleanTwice(dir, rooted);
      assert Clean(dir, rooted) + path == Clean(dir, rooted) && dir + path == dir;
    } else {
      CleanJoins(dir, path[..|path| - 1], rooted);
      Front(Clean(dir, rooted), path);
      Front(dir, path);
    }
  }

  /* What cleaning does: these steps, until none applies. */

  lemma CleanNext(path: seq<string>, segment: string, rooted: bool)
    ensures Clean(path + [segment], rooted) == Push(Clean(path, rooted), segment, rooted)
  {
    assert (path + [segment])[..|path|] == path;
  }

  /** What leads to the same place goes on to the same places. */
  lemma {:induction false} CleanGoesOn(a: seq<string>, b: seq<string>, path: seq<string>, rooted: bool)
    requires Clean(a, rooted) == Clean(b, rooted)
    ensures Clean(a + path, rooted) == Clean(b + path, rooted)
  {
    hide Push;
    if path == [] {
      assert a + path == a && b + path == b;
    } else {
      CleanGoesOn(a, b, path[..|path| - 1], rooted);
      Front(a, path);
      Front(b, path);
    }
  }

  /** An empty segment or a dot stays in the directory. */
  lemma CleanStays(dir: seq<string>, segment: string, path: seq<string>, rooted: bool)
    requires segment == "" || segment == "."
    ensures Clean(dir + [segment] + path, rooted) == Clean(dir + path, rooted)
  {
    CleanNext(dir, segment, rooted);
    CleanGoesOn(dir + [segment], dir, path, rooted);
  }

  /** Two dots leave the directory just entered. */
  lemma CleanLeaves(dir: seq<string>, name: string, path: seq<string>, rooted: bool)
    requires name != "" && name != "." && name != ".."
    ensures Clean(dir + [name] + [".."] + path, rooted) == Clean(dir + path, rooted)
  {
    CleanNext(dir, name, rooted);
    CleanNext(dir + [name], "..", rooted);
    assert ".." != "." && ".." != "" && |".."| == 2 && |"."| == 1;
    CleanGoesOn(dir + [name] + [".."], dir, path, rooted);
  }

  /** There is nothing above the root. */
  lemma CleanAtRoot(path: seq<string>)
    ensures Clean([".."] + path, true) == Clean(path, true)
  {
    CleanNext([], "..", true);
    assert [] + [".."] == [".."] && [] + path == path;
    assert |".."| == 2 && |"."| == 1;
    CleanGoesOn([".."], [], path, true);
  }
}
