/** What opening a path means, by its last component (fs_iopen_inst in kernel/fs.c). The laws cover every path:
    one is empty, or ends with a slash, or ends with a name. */
module PathLaws {
  import opened Bytes
  import opened FsImage
  import opened FsPaths

  /** The first entry of that name in directory `d`, if there is one. */
  ghost predicate FirstNamed(es: seq<Entry>, d: nat, c: Name, r: Option<nat>) {
    match r
    case Some(i) => i < |es| && es[i].parent == d && es[i].name == c &&
                    forall j :: 0 <= j < i ==> !(es[j].parent == d && es[j].name == c)
    case None => forall j :: 0 <= j < |es| ==> !(es[j].parent == d && es[j].name == c)
  }

  predicate OnlySlashes(s: Name) {
    forall i :: 0 <= i < |s| ==> s[i] == 47
  }

  predicate IsDir(es: seq<Entry>, r: Option<nat>) {
    r.Some? && r.value < |es| && es[r.value].kind == 2
  }

  /** Where a path starts. */
  function StartDir(path: Name, cwd: nat): nat {
    if path != [] && path[0] == 47 then 255 else cwd
  }

  lemma OpenIsWalk(es: seq<Entry>, path: Name, cwd: nat)
    ensures Open(es, path, cwd) == Walk(es, path, StartDir(path, cwd), None)
  {
    hide Found;
  }

  lemma FoundIsFirst(es: seq<Entry>, d: nat, c: Name)
    ensures FirstNamed(es, d, c, Found(es, d, c))
  {
  }

  lemma {:induction false} SlashesLeadNowhere(es: seq<Entry>, s: Name, dir: nat, last: Option<nat>)
    requires OnlySlashes(s)
    ensures Walk(es, s, dir, last) == last && Reach(es, s, dir) == Some(dir)
    decreases |s|
  {
    hide Found;
    if s != [] {
      assert SliceEnd(s) == 0;
      SlashesLeadNowhere(es, s[1..], dir, last);
    }
  }

  /** A path can be gone on from exactly when it opens a directory. */
  lemma {:induction false} ReachIsWalk(es: seq<Entry>, s: Name, dir: nat, last: Option<nat>)
    requires !OnlySlashes(s)
    ensures var w := Walk(es, s, dir, last); Reach(es, s, dir) == if IsDir(es, w) then w else None
    decreases |s|
  {
    hide Find;
    var n := SliceEnd(s);
    if n == 0 {
      assert !OnlySlashes(s[1..]) by {
        var i :| 0 <= i < |s| && s[i] != 47;
        assert s[1..][i - 1] == s[i];
      }
      ReachIsWalk(es, s[1..], dir, last);
    } else {
      var f := Found(es, dir, s[..n]);
      if f.Some? && es[f.value].kind == TYPE_DIR && n < |s| {
        var rest := s[n + 1..];
        if OnlySlashes(rest) { SlashesLeadNowhere(es, rest, f.value, f); } else { ReachIsWalk(es, rest, f.value, f); }
      }
    }
  }

  lemma SliceBeforeSlash(s: Name)
    ensures SliceEnd(s + [SLASH]) == SliceEnd(s) && (s + [SLASH])[..SliceEnd(s)] == s[..SliceEnd(s)]
  {
    var n := SliceEnd(s);
    assert s + [SLASH] == s[..n] + (s[n..] + [SLASH]);
    SliceEndOf(s[..n], s[n..] + [SLASH]);
  }

  lemma {:induction false} WalkTrailing(es: seq<Entry>, s: Name, dir: nat, last: Option<nat>)
    requires !OnlySlashes(s)
    ensures Walk(es, s + [SLASH], dir, last) == Reach(es, s, dir)
    decreases |s|
  {
    hide Found;
    var t, n := s + [SLASH], SliceEnd(s);
    SliceBeforeSlash(s);
    if n == 0 {
      assert !OnlySlashes(s[1..]) by {
        var i :| 0 <= i < |s| && s[i] != 47;
        assert s[1..][i - 1] == s[i];
      }
      assert t[1..] == s[1..] + [SLASH];
      WalkTrailing(es, s[1..], dir, last);
    } else {
      var f := Found(es, dir, s[..n]);
      if f.Some? && es[f.value].kind == TYPE_DIR {
        if n == |s| {
          assert t[n + 1..] == [];
        } else {
          var rest := s[n + 1..];
          assert t[n + 1..] == rest + [SLASH];
          if OnlySlashes(rest) {
            SlashesLeadNowhere(es, rest + [SLASH], f.value, f);
            SlashesLeadNowhere(es, rest, f.value, f);
          } else {
            WalkTrailing(es, rest, f.value, f);
          }
        }
      }
    }
  }

  // ---- the laws ----------------------------------------------------------------------------

  /** A path of slashes only, or an empty one, opens nothing. */
  lemma OpenNothing(es: seq<Entry>, s: Name, cwd: nat)
    requires OnlySlashes(s)
    ensures Open(es, s, cwd) == None
  {
    OpenIsWalk(es, s, cwd);
    SlashesLeadNowhere(es, s, StartDir(s, cwd), None);
  }

  /** A name alone is looked up in the current directory. */
  lemma OpenName(es: seq<Entry>, c: Name, cwd: nat)
    requires c != [] && 47 !in c
    ensures FirstNamed(es, cwd, c, Open(es, c, cwd))
  {
    OpenIsWalk(es, c, cwd);
    LastSlice(c);
    assert c[0] in c;
    FoundIsFirst(es, cwd, c);
    hide FirstNamed, Found, Open;
  }

  /** A name behind a path and a slash is looked up in the directory the path opens, or in the root (255) behind
      slashes only; behind anything but a directory it opens nothing. */
  lemma OpenUnder(es: seq<Entry>, s: Name, c: Name, cwd: nat)
    requires c != [] && 47 !in c
    ensures var d, r := Open(es, s, cwd), Open(es, s + ([47] + c), cwd);
            if OnlySlashes(s) then FirstNamed(es, 255, c, r)
            else if IsDir(es, d) then FirstNamed(es, d.value, c, r)
            else r == None
  {
    var path := s + ([47] + c);
    OpenIsWalk(es, path, cwd);
    OpenIsWalk(es, s, cwd);
    var start := StartDir(path, cwd);
    WalkSplits(es, s, c, start, None);
    if OnlySlashes(s) {
      assert start == 255;
      SlashesLeadNowhere(es, s, start, None);
      FoundIsFirst(es, 255, c);
    } else {
      assert s != [] && path[0] == s[0];
      ReachIsWalk(es, s, start, None);
      var d := Reach(es, s, start);
      if d.Some? { FoundIsFirst(es, d.value, c); }
    }
    hide FirstNamed, Found, Open, Walk, Reach;
  }

  /** A slash behind a path changes nothing if the path opens a directory; otherwise nothing is opened. */
  lemma OpenTrailing(es: seq<Entry>, s: Name, cwd: nat)
    ensures var d := Open(es, s, cwd); Open(es, s + [47], cwd) == if IsDir(es, d) then d else None
  {
    OpenIsWalk(es, s + [47], cwd);
    OpenIsWalk(es, s, cwd);
    var start := StartDir(s + [47], cwd);
    if OnlySlashes(s) {
      SlashesLeadNowhere(es, s + [47], start, None);
      SlashesLeadNowhere(es, s, StartDir(s, cwd), None);
    } else {
      assert s != [] && (s + [47])[0] == s[0];
      WalkTrailing(es, s, start, None);
      ReachIsWalk(es, s, start, None);
    }
    hide Found, Open, Walk, Reach;
  }
}
