/** Slash-separated paths, as the source builds and splits them. */
module Paths {
  import opened Bytes

  const Dot: byte := 46

  /** True when `s` holds no '/' byte: a single path component. */
  predicate IsComponent(s: seq<byte>)
  {
    forall i | 0 <= i < |s| :: s[i] != Slash
  }

  /** `path + "/" + name`, the string concatenation used while walking a
      local directory. */
  function Child(path: seq<byte>, name: seq<byte>): seq<byte>
  {
    path + [Slash] + name
  }

  /** A path element: non-empty and without '/'. */
  predicate IsElement(s: seq<byte>)
  {
    |s| > 0 && IsComponent(s)
  }

  /** An element `Clean` keeps as it is: neither "." nor "..". */
  predicate IsPlainName(s: seq<byte>)
  {
    IsElement(s) && s != [Dot] && s != [Dot, Dot]
  }

  /** The non-empty elements of `p` between its slashes, in order. */
  function Elements(p: seq<byte>): (r: seq<seq<byte>>)
    ensures forall i | 0 <= i < |r| :: IsElement(r[i])
    decreases |p|
  {
    if |p| == 0 then []
    else if p[|p| - 1] == Slash then Elements(p[..|p| - 1])
    else
      var last := AfterLastSlash(p);
      Elements(p[..|p| - |last|]) + [last]
  }

  /** What `Clean` does with "." and "..", element by element: "." is
      dropped; ".." removes the element before it, is dropped at the root
      of a rooted path, and is kept when nothing is left to remove. */
  function Resolve(es: seq<seq<byte>>, rooted: bool): (r: seq<seq<byte>>)
    requires forall i | 0 <= i < |es| :: IsElement(es[i])
    ensures forall i | 0 <= i < |r| :: IsElement(r[i]) && r[i] != [Dot]
    ensures rooted ==> forall i | 0 <= i < |r| :: r[i] != [Dot, Dot]
  {
    if |es| == 0 then []
    else
      var done := Resolve(es[..|es| - 1], rooted);
      var e := es[|es| - 1];
      if e == [Dot] then done
      else if e == [Dot, Dot] then
        if |done| > 0 && done[|done| - 1] != [Dot, Dot] then done[..|done| - 1]
        else if rooted then done
        else done + [e]
      else done + [e]
  }

  /** Elements joined with one '/' between neighbours. */
  function Slashed(es: seq<seq<byte>>): (r: seq<byte>)
    requires forall i | 0 <= i < |es| :: IsElement(es[i])
    ensures |r| == 0 <==> |es| == 0
    ensures |r| > 0 ==> r[0] != Slash && r[|r| - 1] != Slash
    ensures |es| > 1 ==> Slash in r
  {
    if |es| == 0 then []
    else if |es| == 1 then
      assert IsElement(es[0]);
      es[0]
    else
      var init := Slashed(es[..|es| - 1]);
      assert init[0] != Slash;
      var last := es[|es| - 1];
      assert IsElement(last);
      var r := init + [Slash] + last;
      assert r[|init|] == Slash && r[|r| - 1] == last[|last| - 1];
      r
  }

  /** `filepath.Clean`, lexically: runs of '/' become one, "." elements go,
      ".." elements take the element before them with them, no trailing
      '/' remains, and the empty result is "." (or "/" for a rooted path). */
  function Clean(p: seq<byte>): (r: seq<byte>)
    ensures |r| > 0
    ensures r[0] == Slash <==> |p| > 0 && p[0] == Slash
    ensures |r| > 1 ==> r[|r| - 1] != Slash
  {
    var rooted := |p| > 0 && p[0] == Slash;
    Assemble(Resolve(Elements(p), rooted), rooted)
  }

  /** The resolved elements of a path written back out, with the leading
      '/' of a rooted path, or "." for nothing. */
  function Assemble(rs: seq<seq<byte>>, rooted: bool): (r: seq<byte>)
    requires forall i | 0 <= i < |rs| :: IsElement(rs[i])
    ensures |r| > 0
    ensures r[0] == Slash <==> rooted
    ensures |r| > 1 ==> r[|r| - 1] != Slash
  {
    var body := Slashed(rs);
    if rooted then [Slash] + body
    else if |body| == 0 then [Dot]
    else body
  }

  /** `filepath.Join(a, b)`: the non-empty operands joined with '/' and
      cleaned, or "" when both are empty. */
  function Join(a: seq<byte>, b: seq<byte>): (r: seq<byte>)
    ensures r == [] <==> |a| == 0 && |b| == 0
    ensures |a| > 0 ==> (r[0] == Slash <==> a[0] == Slash)
    ensures |a| == 0 && |b| > 0 ==> (r[0] == Slash <==> b[0] == Slash)
    ensures |r| > 1 ==> r[|r| - 1] != Slash
  {
    if |a| == 0 && |b| == 0 then []
    else if |a| == 0 then Clean(b)
    else if |b| == 0 then Clean(a)
    else Clean(a + [Slash] + b)
  }

  /** `path` without its trailing '/' bytes. */
  function TrimTrailingSlashes(p: seq<byte>): (r: seq<byte>)
    ensures |r| <= |p| && r == p[..|r|]
    ensures |r| > 0 ==> r[|r| - 1] != Slash
  {
    if |p| > 0 && p[|p| - 1] == Slash then TrimTrailingSlashes(p[..|p| - 1]) else p
  }

  /** The bytes after the last '/' of `p` (all of `p` when it has none). */
  function AfterLastSlash(p: seq<byte>): (r: seq<byte>)
    ensures IsComponent(r)
    ensures |r| <= |p| && r == p[|p| - |r|..]
    ensures |p| > 0 && p[|p| - 1] != Slash ==> |r| > 0
  {
    if |p| == 0 then []
    else if p[|p| - 1] == Slash then []
    else AfterLastSlash(p[..|p| - 1]) + [p[|p| - 1]]
  }

  /** `path.Base(p)`: the last element of `p`, "." for the empty path and
      "/" for a path made only of slashes. */
  function Base(p: seq<byte>): seq<byte>
  {
    if |p| == 0 then [Dot]
    else
      var q := TrimTrailingSlashes(p);
      if |q| == 0 then [Slash] else AfterLastSlash(q)
  }

  /** The last component of `dir + "/" + name` is `name`. */
  lemma BaseOfChild(dir: seq<byte>, name: seq<byte>)
    requires IsElement(name)
    ensures Base(Child(dir, name)) == name
  {
    assert name[|name| - 1] != Slash;
    TrimWithoutTrailingSlash(dir + [Slash] + name);
    AfterLastSlashOfComponent(dir + [Slash], name);
  }

  /** The last component of `Join(dir, name)` is `name`, for a name that
      `Clean` keeps. */
  lemma BaseOfJoin(dir: seq<byte>, name: seq<byte>)
    requires IsPlainName(name)
    ensures Base(Join(dir, name)) == name
  {
    var d := Clean(dir);
    var j := Join(dir, name);
    JoinName(dir, name);
    assert name[|name| - 1] != Slash;
    TrimWithoutTrailingSlash(j);
    if d == [Dot] {
      assert j == [] + name;
      AfterLastSlashOfComponent([], name);
    } else if d == [Slash] {
      AfterLastSlashOfComponent([Slash], name);
    } else {
      assert j == (d + [Slash]) + name;
      AfterLastSlashOfComponent(d + [Slash], name);
    }
  }

  /** Joining a name `Clean` keeps adds exactly that element to the cleaned
      directory: the name alone under ".", "/name" under "/", and
      `dir/name` otherwise. */
  lemma JoinName(dir: seq<byte>, name: seq<byte>)
    requires IsPlainName(name)
    ensures var d := Clean(dir);
            Join(dir, name) == if d == [Dot] then name else if d == [Slash] then [Slash] + name else d + [Slash] + name
  {
    if |dir| == 0 {
      ElementsOfElement(name);
      ResolveSnoc([], name, false);
      assert [] + [name] == [name];
      AssembleSnoc([], name, false);
    } else {
      var rooted := dir[0] == Slash;
      var es := Elements(dir);
      var p := dir + [Slash] + name;
      assert p[0] == dir[0];
      ElementsSnoc(dir, name);
      ResolveSnoc(es, name, rooted);
      AssembleSnoc(Resolve(es, rooted), name, rooted);
    }
  }

  lemma AssembleSnoc(rs: seq<seq<byte>>, name: seq<byte>, rooted: bool)
    requires forall i | 0 <= i < |rs| :: IsElement(rs[i]) && rs[i] != [Dot]
    requires IsPlainName(name)
    ensures var d := Assemble(rs, rooted);
            Assemble(rs + [name], rooted) == if d == [Dot] then name else if d == [Slash] then [Slash] + name else d + [Slash] + name
  {
    SlashedSnoc(rs, name);
    var body := Slashed(rs);
    var d := Assemble(rs, rooted);
    if |rs| > 0 {
      SlashedNotDot(rs);
      assert d != [Dot] && d != [Slash];
      if rooted {
        assert [Slash] + (body + [Slash] + name) == d + [Slash] + name;
      }
    }
  }

  /** Elements without "." never write out as ".". */
  lemma SlashedNotDot(rs: seq<seq<byte>>)
    requires forall i | 0 <= i < |rs| :: IsElement(rs[i]) && rs[i] != [Dot]
    requires |rs| > 0
    ensures Slashed(rs) != [Dot]
  {
    if |rs| == 1 {
      assert Slashed(rs) == rs[0];
    } else {
      assert Slash in Slashed(rs);
    }
  }

  lemma {:induction false} ElementsOfElement(name: seq<byte>)
    requires IsElement(name)
    ensures Elements(name) == [name]
  {
    AfterLastSlashOfComponent([], name);
    assert [] + name == name;
    assert name[..0] == [];
  }

  lemma {:induction false} ElementsSnoc(dir: seq<byte>, name: seq<byte>)
    requires IsElement(name)
    ensures Elements(dir + [Slash] + name) == Elements(dir) + [name]
  {
    var p := dir + [Slash] + name;
    AfterLastSlashOfComponent(dir + [Slash], name);
    assert p == (dir + [Slash]) + name;
    assert p[..|p| - |name|] == dir + [Slash];
    ElementsSlash(dir);
  }

  lemma ElementsSlash(dir: seq<byte>)
    ensures Elements(dir + [Slash]) == Elements(dir)
  {
    assert (dir + [Slash])[..|dir|] == dir;
  }

  lemma ResolveSnoc(es: seq<seq<byte>>, name: seq<byte>, rooted: bool)
    requires forall i | 0 <= i < |es| :: IsElement(es[i])
    requires IsPlainName(name)
    ensures Resolve(es + [name], rooted) == Resolve(es, rooted) + [name]
  {
    assert (es + [name])[..|es|] == es;
  }

  lemma SlashedSnoc(es: seq<seq<byte>>, name: seq<byte>)
    requires forall i | 0 <= i < |es| :: IsElement(es[i])
    requires IsElement(name)
    ensures Slashed(es + [name]) == if |es| == 0 then name else Slashed(es) + [Slash] + name
  {
    assert (es + [name])[..|es|] == es;
  }

  /** `filepath.Join("/a", "../b")` is "/b": ".." takes "a" with it. */
  lemma JoinResolvesDotDot(a: seq<byte>, b: seq<byte>)
    requires IsPlainName(a) && IsPlainName(b)
    ensures Join([Slash] + a, [Dot, Dot, Slash] + b) == [Slash] + b
  {
    var up: seq<byte> := [Dot, Dot];
    var p := [Slash] + a + [Slash] + up + [Slash] + b;
    assert [Slash] + a + [Slash] + ([Dot, Dot, Slash] + b) == p;
    ElementsUpPath(a, b);
    ResolveUp(a, b);
    assert Slashed([b]) == b;
  }

  lemma ElementsUpPath(a: seq<byte>, b: seq<byte>)
    requires IsPlainName(a) && IsPlainName(b)
    ensures Elements([Slash] + a + [Slash] + [Dot, Dot] + [Slash] + b) == [a, [Dot, Dot], b]
  {
    var up: seq<byte> := [Dot, Dot];
    var ra := [Slash] + a;
    var rau := ra + [Slash] + up;
    RootedElement(a);
    ElementsSnoc(ra, up);
    assert Elements(rau) == [a, up];
    ElementsSnoc(rau, b);
  }

  lemma RootedElement(a: seq<byte>)
    requires IsElement(a)
    ensures Elements([Slash] + a) == [a]
  {
    ElementsSnoc([], a);
    assert [] + [Slash] + a == [Slash] + a;
  }

  lemma ResolveUp(a: seq<byte>, b: seq<byte>)
    requires IsPlainName(a) && IsPlainName(b)
    ensures Resolve([a, [Dot, Dot], b], true) == [b]
  {
    var up: seq<byte> := [Dot, Dot];
    ResolveSnoc([], a, true);
    assert [] + [a] == [a];
    assert [a, up][..1] == [a];
    assert Resolve([a, up], true) == [];
    ResolveSnoc([a, up], b, true);
    assert [a, up] + [b] == [a, up, b];
  }

  /** A trailing '/' on the name is dropped: `filepath.Join("/", "b/")` is
      "/b". */
  lemma JoinDropsTrailingSlash(dir: seq<byte>, name: seq<byte>)
    requires IsPlainName(name) && |dir| > 0
    ensures Join(dir, name + [Slash]) == Join(dir, name)
  {
    assert dir + [Slash] + (name + [Slash]) == (dir + [Slash] + name) + [Slash];
    ElementsSlash(dir + [Slash] + name);
    assert (dir + [Slash] + name)[0] == dir[0];
  }

  lemma {:induction false} AfterLastSlashOfComponent(prefix: seq<byte>, name: seq<byte>)
    requires IsComponent(name) && |name| > 0
    requires |prefix| == 0 || prefix[|prefix| - 1] == Slash
    ensures AfterLastSlash(prefix + name) == name
  {
    var last := name[|name| - 1];
    var init := name[..|name| - 1];
    assert init + [last] == name;
    assert prefix + name == (prefix + init) + [last];
    AfterLastSlashStep(prefix + init, last);
    if |init| == 0 {
      assert prefix + init == prefix;
      AfterLastSlashAtSlash(prefix);
    } else {
      ComponentInit(name);
      AfterLastSlashOfComponent(prefix, init);
    }
  }

  lemma ComponentInit(name: seq<byte>)
    requires IsComponent(name) && |name| > 0
    ensures IsComponent(name[..|name| - 1])
  {
    var init := name[..|name| - 1];
    forall i | 0 <= i < |init| ensures init[i] != Slash {
      assert init[i] == name[i];
    }
  }

  lemma AfterLastSlashStep(q: seq<byte>, c: byte)
    requires c != Slash
    ensures AfterLastSlash(q + [c]) == AfterLastSlash(q) + [c]
  {
    assert (q + [c])[..|q|] == q;
  }

  lemma TrimWithoutTrailingSlash(p: seq<byte>)
    requires |p| > 0 && p[|p| - 1] != Slash
    ensures TrimTrailingSlashes(p) == p
  {
  }

  lemma AfterLastSlashAtSlash(prefix: seq<byte>)
    requires |prefix| == 0 || prefix[|prefix| - 1] == Slash
    ensures AfterLastSlash(prefix) == []
  {
  }
}
