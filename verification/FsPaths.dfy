/** How the kernel finds a file by its path (kernel/fs.c). */
module FsPaths {
  import opened Bytes
  import opened FsImage
  import opened FsTheorems

  /** find_in_dir_inst: the first entry of that name in that directory. */
  function Find(es: seq<Entry>, parent: nat, name: Name, i: nat): (k: nat)
    requires i <= |es|
    ensures i <= k <= |es|
    ensures k < |es| ==> es[k].parent == parent && es[k].name == name
    ensures forall j :: i <= j < k ==> !(es[j].parent == parent && es[j].name == name)
    decreases |es| - i
  {
    if i == |es| || (es[i].parent == parent && es[i].name == name) then i else Find(es, parent, name, i + 1)
  }

  function Found(es: seq<Entry>, parent: nat, name: Name): (r: Option<nat>)
    ensures r.Some? ==> r.value < |es| && es[r.value].parent == parent && es[r.value].name == name
  {
    var k := Find(es, parent, name, 0);
    if k < |es| then Some(k) else None
  }

  const SLASH := 47

  /** Where the first component of a path ends. */
  function SliceEnd(path: Name): (k: nat)
    ensures k <= |path| && SLASH !in path[..k] && (k < |path| ==> path[k] == SLASH)
  {
    if path == [] || path[0] == SLASH then 0
    else
      var k := 1 + SliceEnd(path[1..]);
      assert path[..k] == [path[0]] + path[1..][..k - 1];
      k
  }

  /** The loop of fs_iopen_inst, in directory `dir`, having found `last` so far. */
  function Walk(es: seq<Entry>, path: Name, dir: nat, last: Option<nat>): Option<nat>
    decreases |path|
  {
    var n := SliceEnd(path);
    if path == [] then last
    else if n == 0 then Walk(es, path[1..], dir, last)
    else
      var f := Found(es, dir, path[..n]);
      if f.None? || n == |path| then f
      else if es[f.value].kind != TYPE_DIR then None
      else Walk(es, path[n + 1..], f.value, f)
  }

  /** fs_iopen_inst: `cwd` is where a path without a leading slash starts, the task's current directory or the
      root. */
  function Open(es: seq<Entry>, path: Name, cwd: nat): Option<nat> {
    var absolute := path != [] && path[0] == SLASH;
    var rest := if absolute then path[1..] else path;
    if rest == [] then None else Walk(es, rest, if absolute then ROOT else cwd, None)
  }

  /** The inner loop of fs_iopen_inst: to the next slash. */
  method SkipComponent(path: Name, start: nat) returns (p: nat)
    requires start <= |path|
    ensures p == start + SliceEnd(path[start..])
  {
    p := start;
    while p < |path| && path[p] != SLASH
      invariant start <= p <= |path| && SliceEnd(path[start..]) == p - start + SliceEnd(path[p..])
    {
      assert path[p..][1..] == path[p + 1..];
      p := p + 1;
    }
  }

  /** find_in_dir_inst. */
  method FindInDir(es: seq<Entry>, dir: nat, name: Name) returns (found: Option<nat>)
    ensures found == Found(es, dir, name)
  {
    for i := 0 to |es|
      invariant Find(es, dir, name, 0) == Find(es, dir, name, i)
    {
      if es[i].parent == dir && es[i].name == name { return Some(i); }
    }
    return None;
  }

  lemma WalkStep(es: seq<Entry>, path: Name, p: nat, dir: nat, last: Option<nat>)
    requires p < |path|
    ensures var n := SliceEnd(path[p..]);
            && p + n <= |path| && path[p..][..n] == path[p..p + n]
            && (n == 0 ==> Walk(es, path[p..], dir, last) == Walk(es, path[p + 1..], dir, last))
            && (n > 0 ==>
                  var f := Found(es, dir, path[p..p + n]);
                  Walk(es, path[p..], dir, last) ==
                  if f.None? || p + n == |path| then f
                  else if es[f.value].kind != TYPE_DIR then None
                  else Walk(es, path[p + n + 1..], f.value, f))
  {
    var n := SliceEnd(path[p..]);
    hide Found, SliceEnd;
    assert path[p..][1..] == path[p + 1..];
    if p + n < |path| { assert path[p..][n + 1..] == path[p + n + 1..]; }
  }

  lemma WalkEnds(es: seq<Entry>, path: Name, dir: nat, last: Option<nat>)
    ensures Walk(es, path[|path|..], dir, last) == last
  {
  }

  lemma OpenStarts(es: seq<Entry>, path: Name, cwd: nat)
    ensures var p := if path != [] && path[0] == SLASH then 1 else 0;
            Open(es, path, cwd) ==
            if p == |path| then None else Walk(es, path[p..], if p == 1 then ROOT else cwd, None)
  {
    assert path[0..] == path;
    hide Walk;
  }

  /** fs_iopen_inst. */
  method OpenPath(es: seq<Entry>, path: Name, cwd: nat) returns (r: Option<nat>)
    ensures r == Open(es, path, cwd)
  {
    hide *;
    OpenStarts(es, path, cwd);
    var p := if path != [] && path[0] == SLASH then 1 else 0;
    if p == |path| { return None; }
    var dir: nat := if p == 1 then ROOT else cwd;
    r := None;
    while p < |path|
      invariant p <= |path| && Walk(es, path[p..], dir, r) == Open(es, path, cwd)
    {
      WalkStep(es, path, p, dir, r);
      var start := p;
      p := SkipComponent(path, start);
      if p == start {
        p := p + 1;
      } else {
        var found := FindInDir(es, dir, path[start..p]);
        if found.None? { return None; }
        r := found;
        if p < |path| {
          if es[found.value].kind != TYPE_DIR { return None; }
          dir := found.value;
          p := p + 1;
        } else {
          WalkEnds(es, path, dir, r);
        }
      }
    }
    WalkEnds(es, path, dir, r);
  }

  /** A name that can be a component of a path. */
  predicate Plain(n: Name) {
    n != [] && SLASH !in n
  }

  /** The path of an entry, from the root. */
  function PathOf(es: seq<Entry>, i: nat): (p: Name)
    requires i < |es|
    decreases i
  {
    DirPath(es, i) + ([SLASH] + es[i].name)
  }

  function DirPath(es: seq<Entry>, i: nat): Name
    requires i < |es|
    decreases i, 0
  {
    if es[i].parent < i then PathOf(es, es[i].parent) else []
  }

  /** No earlier entry of the same directory has the name. */
  predicate FirstOfName(es: seq<Entry>, i: nat)
    requires i < |es|
  {
    forall j :: 0 <= j < i ==> !(es[j].parent == es[i].parent && es[j].name == es[i].name)
  }

  /** An entry, and each directory above it, has a plain name and is the first of that name where it is. */
  predicate Findable(es: seq<Entry>, i: nat)
    requires i < |es|
    decreases i
  {
    Plain(es[i].name) && FirstOfName(es, i) && (es[i].parent < i ==> Findable(es, es[i].parent))
  }

  /** The directory a path leads to when another component follows it. */
  function Reach(es: seq<Entry>, path: Name, dir: nat): Option<nat>
    decreases |path|
  {
    var n := SliceEnd(path);
    if path == [] then Some(dir)
    else if n == 0 then Reach(es, path[1..], dir)
    else
      var f := Found(es, dir, path[..n]);
      if f.None? || es[f.value].kind != TYPE_DIR then None
      else if n == |path| then f
      else Reach(es, path[n + 1..], f.value)
  }

  /** What a walk finds has a plain name. */
  lemma {:induction false} WalkPlain(es: seq<Entry>, path: Name, dir: nat, last: Option<nat>)
    requires last.Some? ==> last.value < |es| && Plain(es[last.value].name)
    ensures var r := Walk(es, path, dir, last); r.Some? ==> r.value < |es| && Plain(es[r.value].name)
    decreases |path|
  {
    hide Find;
    var n := SliceEnd(path);
    if path == [] {
    } else if n == 0 {
      WalkPlain(es, path[1..], dir, last);
    } else {
      var f := Found(es, dir, path[..n]);
      if f.Some? && n < |path| { WalkPlain(es, path[n + 1..], f.value, f); }
    }
  }

  lemma {:induction false} ReachPlain(es: seq<Entry>, path: Name, dir: nat)
    ensures var r := Reach(es, path, dir);
            r.Some? ==> r.value == dir || (r.value < |es| && Plain(es[r.value].name))
    decreases |path|
  {
    hide Find;
    var n := SliceEnd(path);
    if path == [] {
    } else if n == 0 {
      ReachPlain(es, path[1..], dir);
    } else {
      var f := Found(es, dir, path[..n]);
      if f.Some? && n < |path| { ReachPlain(es, path[n + 1..], f.value); }
    }
  }

  lemma {:induction false} SliceEndOf(s: Name, t: Name)
    requires SLASH !in s && (t == [] || t[0] == SLASH)
    ensures SliceEnd(s + t) == |s|
  {
    if s == [] {
      assert s + t == t;
    } else {
      assert (s + t)[1..] == s[1..] + t;
      SliceEndOf(s[1..], t);
    }
  }

  /** Where the first component of a longer path ends. */
  lemma FirstSlice(s: Name, c: Name)
    requires s != []
    ensures SliceEnd(s + ([SLASH] + c)) == SliceEnd(s)
  {
    var n := SliceEnd(s);
    assert s + ([SLASH] + c) == s[..n] + (s[n..] + ([SLASH] + c));
    SliceEndOf(s[..n], s[n..] + ([SLASH] + c));
  }

  lemma LastSlice(c: Name)
    requires Plain(c)
    ensures SliceEnd([SLASH] + c) == 0 && ([SLASH] + c)[1..] == c && SliceEnd(c) == |c| && c[..|c|] == c
  {
    assert c + [] == c;
    SliceEndOf(c, []);
  }

  /** A walk that ends with a plain component looks it up where the rest leads. */
  lemma {:induction false} WalkSplits(es: seq<Entry>, s: Name, c: Name, dir: nat, last: Option<nat>)
    requires Plain(c)
    ensures Walk(es, s + ([SLASH] + c), dir, last) ==
            (var d := Reach(es, s, dir); if d.None? then None else Found(es, d.value, c))
    decreases |s|
  {
    hide Found;
    var t := [SLASH] + c;
    LastSlice(c);
    if s == [] {
      assert s + t == t;
    } else {
      FirstSlice(s, c);
      var n := SliceEnd(s);
      assert (s + t)[..n] == s[..n];
      if n == 0 {
        assert (s + t)[1..] == s[1..] + t;
        WalkSplits(es, s[1..], c, dir, last);
      } else {
        var f := Found(es, dir, s[..n]);
        if f.Some? {
          if n == |s| {
            assert (s + t)[n + 1..] == c;
          } else {
            assert (s + t)[n + 1..] == s[n + 1..] + t;
            WalkSplits(es, s[n + 1..], c, f.value, f);
          }
        }
      }
    }
  }

  lemma {:induction false} ReachSplits(es: seq<Entry>, s: Name, c: Name, dir: nat)
    requires Plain(c)
    ensures Reach(es, s + ([SLASH] + c), dir) ==
            var d := Reach(es, s, dir);
            if d.None? then None
            else
              var f := Found(es, d.value, c);
              if f.None? || es[f.value].kind != TYPE_DIR then None else f
    decreases |s|
  {
    hide Found;
    var t := [SLASH] + c;
    LastSlice(c);
    if s == [] {
      assert s + t == t;
    } else {
      FirstSlice(s, c);
      var n := SliceEnd(s);
      assert (s + t)[..n] == s[..n];
      if n == 0 {
        assert (s + t)[1..] == s[1..] + t;
        ReachSplits(es, s[1..], c, dir);
      } else {
        var f := Found(es, dir, s[..n]);
        if f.Some? {
          if n == |s| {
            assert (s + t)[n + 1..] == c;
          } else {
            assert (s + t)[n + 1..] == s[n + 1..] + t;
            ReachSplits(es, s[n + 1..], c, f.value);
          }
        }
      }
    }
  }

  lemma FoundIff(es: seq<Entry>, i: nat, d: nat)
    requires i < |es|
    ensures Found(es, d, es[i].name) == Some(i) <==> d == es[i].parent && FirstOfName(es, i)
  {
  }

  lemma {:induction false} DirReachedIff(es: seq<Entry>, i: nat)
    requires Tree(es) && i < |es| && i < ROOT && es[i].kind == TYPE_DIR
    ensures Reach(es, PathOf(es, i), ROOT) == Some(i) <==> Findable(es, i)
    decreases i
  {
    assert LinkOk(es, i);
    hide Found, FirstOfName;
    if Plain(es[i].name) {
      ReachSplits(es, DirPath(es, i), es[i].name, ROOT);
      if es[i].parent != ROOT { DirReachedIff(es, es[i].parent); }
      var d := Reach(es, DirPath(es, i), ROOT);
      if d.Some? { FoundIff(es, i, d.value); }
    } else {
      ReachPlain(es, PathOf(es, i), ROOT);
    }
  }

  /** Opening the path of an entry finds that entry exactly when it and each directory above it has a name that
      is not empty and holds no slash, and is the first of that name in its directory. */
  lemma PathOpensIff(es: seq<Entry>, i: nat, cwd: nat)
    requires Tree(es) && i < |es| <= MAX_FILES
    ensures Open(es, PathOf(es, i), cwd) == Some(i) <==> Findable(es, i)
  {
    assert LinkOk(es, i);
    var path := PathOf(es, i);
    LeadingSlash(es, i, cwd);
    hide Found, FirstOfName, PathOf;
    if Plain(es[i].name) {
      WalkSplits(es, DirPath(es, i), es[i].name, ROOT, None);
      if es[i].parent != ROOT { DirReachedIff(es, es[i].parent); }
      var d := Reach(es, DirPath(es, i), ROOT);
      if d.Some? { FoundIff(es, i, d.value); }
    } else {
      WalkPlain(es, path, ROOT, None);
    }
  }

  lemma {:induction false} LeadingSlash(es: seq<Entry>, i: nat, cwd: nat)
    requires i < |es|
    ensures var p := PathOf(es, i); p != [] && p[0] == SLASH && Open(es, p, cwd) == Walk(es, p, ROOT, None)
    decreases i
  {
    if es[i].parent < i { LeadingSlash(es, es[i].parent, cwd); }
  }
}
