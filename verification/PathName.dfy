/** cfs_pathToFileName: one flat name in the cache directory for every path. */
module PathName {

  /** The string with every '/' dropped, order kept. */
  function Slashless(s: string): (r: string)
    ensures |r| <= |s|
  {
    if s == "" then "" else if s[0] == '/' then Slashless(s[1..]) else [s[0]] + Slashless(s[1..])
  }

  /** The first character is kept even when it is a slash. */
  function Flatten(path: string): (r: string)
    ensures |r| <= |path|
  {
    if path == "" then "" else [path[0]] + Slashless(path[1..])
  }

  /** The metadata database lies in the cache directory itself. */
  const DATABASE := "/Metadata-File.db"

  /** The database, and the files SQLite keeps beside it. */
  predicate Reserved(name: string) {
    || name == DATABASE || name == DATABASE + "-journal" || name == DATABASE + "-wal" || name == DATABASE + "-shm"
  }

  lemma {:induction false} SlashlessAppend(a: string, b: string)
    ensures Slashless(a + b) == Slashless(a) + Slashless(b)
  {
    hide Slashless;
    if a == "" {
      SlashlessFirst("", b);
      assert a + b == b && Slashless("") + Slashless(b) == Slashless(b);
    } else {
      SlashlessAppend(a[1..], b);
      SlashlessFirst(a, b);
    }
  }

  lemma SlashlessFirst(a: string, b: string)
    ensures Slashless("") == ""
    ensures a != "" && Slashless(a[1..] + b) == Slashless(a[1..]) + Slashless(b)
        ==> Slashless(a + b) == Slashless(a) + Slashless(b)
  {
    if a != "" {
      assert (a + b)[0] == a[0] && (a + b)[1..] == a[1..] + b;
    }
  }

  lemma {:induction false} NoneLeft(s: string)
    ensures '/' !in Slashless(s)
  {
    if s != "" {
      NoneLeft(s[1..]);
    }
  }

  lemma {:induction false} SlashlessFixed(s: string)
    requires '/' !in s
    ensures Slashless(s) == s
  {
    if s != "" {
      SlashlessFixed(s[1..]);
    }
  }

  lemma FlattenStep(s: string, k: nat)
    ensures Flatten(s[..0]) == ""
    ensures k < |s|
        ==> Flatten(s[..k + 1]) == if s[k] != '/' || k == 0 then Flatten(s[..k]) + [s[k]] else Flatten(s[..k])
  {
    if 0 < k < |s| {
      assert s[..k + 1][1..] == s[..k][1..] + [s[k]];
      SlashlessAppend(s[..k][1..], [s[k]]);
      assert Slashless([s[k]]) == if s[k] == '/' then "" else [s[k]];
    }
  }

  /** The two-pointer loop over a NUL-terminated buffer.  `len` is where the NUL stands.
      The writer never passes the reader, and nothing behind the new NUL changes. */
  method FlattenInPlace(a: array<char>, ghost len: nat) returns (n: nat)
    requires len < a.Length && a[len] == '\0'
    requires forall k :: 0 <= k < len ==> a[k] != '\0'
    modifies a
    ensures n <= len && a[n] == '\0'
    ensures a[..n] == Flatten(old(a[..len]))
    ensures a[n + 1..] == old(a[n + 1..])
  {
    hide Flatten, Slashless;
    ghost var s := a[..len];
    FlattenStep(s, 0);
    var src, dst := 0, 0;
    while a[src] != '\0'
      invariant dst <= src <= len
      invariant forall k :: src <= k < a.Length ==> a[k] == old(a[k])
      invariant forall k :: dst < k < a.Length ==> a[k] == old(a[k])
      invariant a[..dst] == Flatten(s[..src])
      decreases len - src
    {
      FlattenStep(s, src);
      assert a[src] == s[src];
      ghost var before := a[..dst];
      a[dst] := a[src];
      assert a[..dst] == before;
      if a[dst] != '/' || src == 0 {
        assert a[..dst + 1] == before + [s[src]];
        dst := dst + 1;
      }
      src := src + 1;
    }
    assert src == len && s[..src] == s;
    ghost var before := a[..dst];
    a[dst] := '\0';
    assert a[..dst] == before;
    n := dst;
  }

  /** A cached name flattens to itself. */
  lemma FlattenIdempotent(path: string)
    ensures Flatten(Flatten(path)) == Flatten(path)
  {
    if path != "" {
      NoneLeft(path[1..]);
      SlashlessFixed(Slashless(path[1..]));
    }
  }

  /** An absolute path spelled by its components. */
  function AbsolutePath(components: seq<string>): (r: string)
    ensures components != [] ==> r != "" && r[0] == '/'
  {
    if components == [] then "" else "/" + components[0] + AbsolutePath(components[1..])
  }

  function Concat(components: seq<string>): string {
    if components == [] then "" else components[0] + Concat(components[1..])
  }

  lemma {:induction false} SlashlessPath(components: seq<string>)
    requires forall c :: c in components ==> '/' !in c
    ensures Slashless(AbsolutePath(components)) == Concat(components)
  {
    if components != [] {
      var c, rest := components[0], components[1..];
      SlashlessPath(rest);
      SlashlessFixed(c);
      SlashlessAppend("/" + c, AbsolutePath(rest));
      assert ("/" + c)[1..] == c;
    }
  }

  /** The cache name of a path is a slash followed by its components run together. */
  lemma FlattenPath(components: seq<string>)
    requires components != [] && forall c :: c in components ==> '/' !in c
    ensures Flatten(AbsolutePath(components)) == "/" + Concat(components)
  {
    var path := AbsolutePath(components);
    SlashlessPath(components);
    assert path == [path[0]] + path[1..];
    assert Slashless(path) == Slashless(path[1..]);
  }

  /** Two absolute paths share a cache name exactly when their components run together
      to the same string; so paths of one component never collide. */
  lemma FlattenCollision(p: seq<string>, q: seq<string>)
    requires p != [] && forall c :: c in p ==> '/' !in c
    requires q != [] && forall c :: c in q ==> '/' !in c
    ensures Flatten(AbsolutePath(p)) == Flatten(AbsolutePath(q)) <==> Concat(p) == Concat(q)
    ensures |p| == |q| == 1 && Flatten(AbsolutePath(p)) == Flatten(AbsolutePath(q)) ==> p == q
  {
    hide Flatten, Slashless, AbsolutePath, Concat;
    FlattenPath(p);
    FlattenPath(q);
    assert ("/" + Concat(p))[1..] == Concat(p);
    assert ("/" + Concat(q))[1..] == Concat(q);
    if |p| == |q| == 1 {
      OneComponent(p);
      OneComponent(q);
    }
  }

  lemma OneComponent(p: seq<string>)
    requires |p| == 1
    ensures Concat(p) == p[0] && p == [p[0]]
  {
    assert p[1..] == [];
  }

  /** Files of different directories can collide. */
  lemma FlattenCollides()
    ensures Flatten("/a/bc") == Flatten("/ab/c") == "/abc"
  {
    assert "/a/bc" == AbsolutePath(["a", "bc"]) && "/ab/c" == AbsolutePath(["ab", "c"]);
    FlattenPath(["a", "bc"]);
    FlattenPath(["ab", "c"]);
  }
}
