/** Absolute paths and the mount table (kernel/src/fs/mod.rs). Paths are UTF-8 byte strings. */
module Vfs {
  import opened Prelude

  const SLASH: byte := 0x2F

  function Prefix(s: seq<byte>): (n: nat)
    ensures n <= |s|
    ensures SLASH !in s[..n]
    ensures n < |s| ==> s[n] == SLASH
  {
    if s == [] || s[0] == SLASH then 0 else 1 + Prefix(s[1..])
  }

  /** `path.split('/').filter(|c| !c.is_empty())` */
  function Components(s: seq<byte>): (cs: seq<seq<byte>>) {
    if s == [] then []
    else if s[0] == SLASH then Components(s[1..])
    else
      var n := Prefix(s);
      assert n > 0;
      [s[..n]] + Components(s[n..])
  }

  /** The path with these components. */
  function Join(cs: seq<seq<byte>>): (s: seq<byte>) {
    if cs == [] then [] else [SLASH] + cs[0] + Join(cs[1..])
  }

  lemma {:induction false} PrefixOfName(name: seq<byte>, rest: seq<byte>)
    requires SLASH !in name && (rest == [] || rest[0] == SLASH)
    ensures Prefix(name + rest) == |name|
  {
    if name != [] {
      assert (name + rest)[1..] == name[1..] + rest;
      PrefixOfName(name[1..], rest);
    } else {
      assert name + rest == rest;
    }
  }

  /** A leading name, then a slash or the end. */
  lemma {:induction false} ComponentsName(name: seq<byte>, rest: seq<byte>)
    requires name != [] && SLASH !in name && (rest == [] || rest[0] == SLASH)
    ensures Components(name + rest) == [name] + Components(rest)
  {
    PrefixOfName(name, rest);
    var s := name + rest;
    assert s[0] == name[0] != SLASH;
    assert s[..|name|] == name && s[|name|..] == rest;
  }

  lemma NoComponents()
    ensures Components([]) == []
  {
  }

  lemma {:induction false} ComponentsSlash(s: seq<byte>)
    ensures Components([SLASH] + s) == Components(s)
  {
    assert ([SLASH] + s)[1..] == s;
  }

  lemma {:induction false} JoinFront(cs: seq<seq<byte>>)
    requires cs != []
    ensures Join(cs) == [SLASH] + (cs[0] + Join(cs[1..]))
    ensures Join(cs[1..]) == [] || Join(cs[1..])[0] == SLASH
  {
  }

  lemma JoinNone()
    ensures Join([]) == []
  {
  }

  /** Splitting a joined path gives the components back. */
  lemma {:induction false} SplitJoin(cs: seq<seq<byte>>)
    requires forall i :: 0 <= i < |cs| ==> cs[i] != [] && SLASH !in cs[i]
    ensures Components(Join(cs)) == cs
  {
    if cs != [] {
      SplitJoin(cs[1..]);
      JoinFront(cs);
      ComponentsName(cs[0], Join(cs[1..]));
      ComponentsSlash(cs[0] + Join(cs[1..]));
      assert cs == [cs[0]] + cs[1..];
    }
  }

  lemma {:induction false} CutAfterName(a: seq<byte>, b: seq<byte>, n: nat)
    requires a != [] && a[0] != SLASH && n == Prefix(a)
    requires n == |a| ==> b == [] || b[0] == SLASH
    ensures 0 < n <= |a| && Components(a) == [a[..n]] + Components(a[n..])
    ensures Components(a + b) == [a[..n]] + if n == |a| then Components(b) else Components(a[n..] + b)
  {
    var name, rest := a[..n], a[n..];
    assert a == name + rest;
    ComponentsName(name, rest);
    if n == |a| {
      assert a == name;
      ComponentsName(name, b);
    } else {
      assert a + b == name + (rest + b);
      ComponentsName(name, rest + b);
    }
  }

  /** A path can be cut at a slash without changing its components. */
  lemma {:induction false} ComponentsCut(a: seq<byte>, b: seq<byte>)
    requires a == [] || a[|a| - 1] == SLASH || b == [] || b[0] == SLASH
    ensures Components(a + b) == Components(a) + Components(b)
    decreases |a|
  {
    hide Components, Prefix;
    NoComponents();
    if a == [] {
      assert a + b == b;
    } else if a[0] == SLASH {
      assert a == [SLASH] + a[1..] && a + b == [SLASH] + (a[1..] + b);
      ComponentsSlash(a[1..]);
      ComponentsSlash(a[1..] + b);
      ComponentsCut(a[1..], b);
    } else {
      var n := Prefix(a);
      CutAfterName(a, b, n);
      if n < |a| {
        ComponentsCut(a[n..], b);
        assert [a[..n]] + (Components(a[n..]) + Components(b)) == [a[..n]] + Components(a[n..]) + Components(b);
      } else {
        assert a[n..] == [];
      }
    }
  }

  /** Components as they stand between slashes. */
  ghost predicate Plain(cs: seq<seq<byte>>) {
    forall i :: 0 <= i < |cs| ==> cs[i] != [] && SLASH !in cs[i]
  }

  lemma {:induction false} JoinAppend(cs: seq<seq<byte>>, ds: seq<seq<byte>>)
    ensures Join(cs + ds) == Join(cs) + Join(ds)
  {
    if cs == [] {
      assert cs + ds == ds;
    } else {
      assert (cs + ds)[1..] == cs[1..] + ds;
      JoinAppend(cs[1..], ds);
    }
  }

  lemma {:induction false} JoinEnds(cs: seq<seq<byte>>)
    requires cs != [] && Plain(cs)
    ensures Join(cs) != [] && Join(cs)[|Join(cs)| - 1] != SLASH
  {
    var n := |cs| - 1;
    var last := [cs[n]];
    assert cs == cs[..n] + last;
    JoinAppend(cs[..n], last);
    assert last[1..] == [] && Join(last) == [SLASH] + cs[n] + [];
    assert cs[n][|cs[n]| - 1] in cs[n];
  }

  // ---------------------------------------------------------------------
  // Mount table

  /** Mounted filesystems are identified by number. */
  datatype MountPoint = MountPoint(path: seq<byte>, fs: nat)

  /** `path` lies at or below mount point mp. */
  predicate Covers(mp: seq<byte>, path: seq<byte>) {
    || path == mp
    || (mp <= path && ((mp != [] && mp[|mp| - 1] == SLASH) || (|mp| < |path| && path[|mp|] == SLASH)))
  }

  /** A mount point covers the paths whose first components are its own: /boot covers /boot and
      /boot/init, but not /bootstrap. */
  lemma CoversJoin(cs: seq<seq<byte>>, ds: seq<seq<byte>>)
    requires cs != [] && Plain(cs) && Plain(ds)
    ensures Covers(Join(cs), Join(ds)) <==> cs <= ds
  {
    hide Components, Join;
    var mp, path := Join(cs), Join(ds);
    JoinEnds(cs);
    SplitJoin(cs);
    SplitJoin(ds);
    if Covers(mp, path) {
      var rest := path[|mp|..];
      assert path == mp + rest;
      ComponentsCut(mp, rest);
      assert ds == cs + Components(rest);
    }
    if cs <= ds {
      var more := ds[|cs|..];
      assert ds == cs + more;
      JoinAppend(cs, more);
      if more != [] {
        JoinFront(more);
      } else {
        JoinNone();
      }
    }
  }

  /** p is the mount point a path belongs to: the longest that covers it. */
  ghost predicate MountFor(m: map<seq<byte>, nat>, path: seq<byte>, p: seq<byte>) {
    p in m && Covers(p, path) && forall q :: q in m && Covers(q, path) ==> |q| <= |p|
  }

  lemma MountOnly(m: map<seq<byte>, nat>, path: seq<byte>, p: seq<byte>, q: seq<byte>)
    requires MountFor(m, path, p) && MountFor(m, path, q)
    ensures p == q
  {
    assert p == path[..|p|] && q == path[..|q|];
  }

  ghost predicate LongestFirst(m: seq<MountPoint>) {
    && (forall i, j :: 0 <= i < j < |m| ==> |m[j].path| <= |m[i].path|)
    && (forall i, j :: 0 <= i < j < |m| ==> m[i].path != m[j].path)
  }

  /** The table as a map from mount path to filesystem. */
  ghost function AsMap(m: seq<MountPoint>): (r: map<seq<byte>, nat>) {
    if m == [] then map[] else AsMap(m[..|m| - 1])[m[|m| - 1].path := m[|m| - 1].fs]
  }

  lemma {:induction false} AsMapKeys(m: seq<MountPoint>, p: seq<byte>)
    ensures p in AsMap(m) <==> exists i :: 0 <= i < |m| && m[i].path == p
  {
    if m != [] {
      AsMapKeys(m[..|m| - 1], p);
      if p in AsMap(m[..|m| - 1]) {
        var i :| 0 <= i < |m| - 1 && m[..|m| - 1][i].path == p;
        assert m[i].path == p;
      }
    }
  }

  lemma {:induction false} AsMapAt(m: seq<MountPoint>, i: nat)
    requires i < |m| && forall a, b :: 0 <= a < b < |m| ==> m[a].path != m[b].path
    ensures m[i].path in AsMap(m) && AsMap(m)[m[i].path] == m[i].fs
    decreases |m|
  {
    if i < |m| - 1 {
      AsMapAt(m[..|m| - 1], i);
    }
  }

  lemma InsertOrdered(m: seq<MountPoint>, k: nat, e: MountPoint)
    requires LongestFirst(m) && k <= |m| && forall i :: 0 <= i < |m| ==> m[i].path != e.path
    requires forall j :: 0 <= j < k ==> |m[j].path| >= |e.path|
    requires k < |m| ==> |m[k].path| < |e.path|
    ensures LongestFirst(m[..k] + [e] + m[k..])
  {
    var r := m[..k] + [e] + m[k..];
    forall i, j | 0 <= i < j < |r| ensures |r[j].path| <= |r[i].path| && r[i].path != r[j].path {
      var a := if i < k then i else i - 1;
      var b := if j < k then j else j - 1;
      assert i != k ==> r[i] == m[a];
      assert j != k ==> r[j] == m[b];
    }
  }

  lemma LongestMatch(m: seq<MountPoint>, i: nat, path: seq<byte>)
    requires LongestFirst(m) && i < |m|
    requires forall j :: 0 <= j < i ==> !Covers(m[j].path, path)
    ensures forall q :: q in AsMap(m) && Covers(q, path) ==> |q| <= |m[i].path|
  {
    forall q | q in AsMap(m) && Covers(q, path) ensures |q| <= |m[i].path| {
      AsMapKeys(m, q);
      var j :| 0 <= j < |m| && m[j].path == q;
    }
  }

  lemma {:induction false} AsMapReplace(m: seq<MountPoint>, i: nat, fs: nat)
    requires i < |m| && forall a, b :: 0 <= a < b < |m| ==> m[a].path != m[b].path
    ensures AsMap(m[i := m[i].(fs := fs)]) == AsMap(m)[m[i].path := fs]
    decreases |m|
  {
    var m' := m[i := m[i].(fs := fs)];
    var n := |m| - 1;
    if i < n {
      AsMapReplace(m[..n], i, fs);
      assert m'[..n] == m[..n][i := m[i].(fs := fs)];
      assert m[i].path != m[n].path;
    } else {
      assert m'[..n] == m[..n];
    }
  }

  lemma {:induction false} AsMapInsert(m: seq<MountPoint>, k: nat, e: MountPoint)
    requires k <= |m| && forall i :: 0 <= i < |m| ==> m[i].path != e.path
    ensures AsMap(m[..k] + [e] + m[k..]) == AsMap(m)[e.path := e.fs]
    decreases |m|
  {
    var m' := m[..k] + [e] + m[k..];
    if k == |m| {
      assert m'[..|m|] == m;
    } else {
      var n := |m| - 1;
      AsMapInsert(m[..n], k, e);
      assert m'[..|m|] == m[..n][..k] + [e] + m[..n][k..];
      assert m'[|m|] == m[n];
      assert m[n].path != e.path;
    }
  }

  class Mounts {
    var m: seq<MountPoint>

    constructor ()
      ensures m == []
    {
      m := [];
    }

    /** Replace the filesystem at an existing mount point, or insert keeping longest paths first. */
    method Mount(path: seq<byte>, fs: nat)
      requires LongestFirst(m)
      modifies this
      ensures LongestFirst(m)
      ensures AsMap(m) == AsMap(old(m))[path := fs]
    {
      for i := 0 to |m|
        invariant m == old(m)
        invariant forall j :: 0 <= j < i ==> m[j].path != path
      {
        if m[i].path == path {
          AsMapReplace(m, i, fs);
          m := m[i := m[i].(fs := fs)];
          return;
        }
      }
      // Stable sort by descending length: the new entry goes after those at least as long.
      var k := 0;
      while k < |m| && |m[k].path| >= |path|
        invariant 0 <= k <= |m|
        invariant forall j :: 0 <= j < k ==> |m[j].path| >= |path|
      {
        k := k + 1;
      }
      AsMapInsert(m, k, MountPoint(path, fs));
      InsertOrdered(m, k, MountPoint(path, fs));
      m := m[..k] + [MountPoint(path, fs)] + m[k..];
    }

    /** The filesystem at the longest mount point covering `path`, and the path below it. */
    method ResolveMount(path: seq<byte>) returns (r: Option<(nat, seq<byte>)>)
      requires LongestFirst(m)
      ensures r.None? <==> forall p :: p in AsMap(m) ==> !Covers(p, path)
      ensures r.Some? ==> exists p ::
                && p in AsMap(m) && MountFor(AsMap(m), path, p) && AsMap(m)[p] == r.value.0
                && Components(path) == Components(p) + Components(r.value.1)
    {
      for i := 0 to |m|
        invariant forall j :: 0 <= j < i ==> !Covers(m[j].path, path)
      {
        var mp := m[i].path;
        if path == mp {
          AsMapAt(m, i);
          assert Components([SLASH]) == [];
          LongestMatch(m, i, path);
          assert MountFor(AsMap(m), path, mp);
          return Some((m[i].fs, [SLASH]));
        }
        if mp <= path && ((mp != [] && mp[|mp| - 1] == SLASH) || (|mp| < |path| && path[|mp|] == SLASH)) {
          var rest := path[|mp|..];
          AsMapAt(m, i);
          LongestMatch(m, i, path);
          assert path == mp + rest;
          ComponentsCut(mp, rest);
          assert MountFor(AsMap(m), path, mp);
          return Some((m[i].fs, if rest == [] then [SLASH] else rest));
        }
      }
      forall p | p in AsMap(m) ensures !Covers(p, path) {
        AsMapKeys(m, p);
      }
      return None;
    }
  }
}
