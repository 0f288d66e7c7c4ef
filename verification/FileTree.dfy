/** The directory tree fileop's tests make and remove, as values. */
module FileTree {
  import opened Posix

  function Digit(d: nat): char
    requires d < 10
  {
    ('0' as int + d) as char
  }

  /** printf's %d, of a number that is not negative. */
  function Decimal(n: nat): (s: string)
    ensures |s| > 0 && forall p :: 0 <= p < |s| ==> '0' <= s[p] <= '9'
  {
    if n < 10 then [Digit(n)] else Decimal(n / 10) + [Digit(n % 10)]
  }

  /** What fileop prints for a first-level directory. */
  function TopText(i: nat): string { "fileop_L1_" + Decimal(i) }

  /** The names of whatever else may lie in the directory fileop is started in. */
  type Text = s: string | forall i: nat :: s != TopText(i) witness ""

  /** The names fileop generates, by the numbers printed into them, and all other names. */
  datatype Name =
    | L1(i: nat)
    | L2(i: nat, j: nat)
    | DirLeaf(i: nat, j: nat, k: nat)
    | FileLeaf(i: nat, j: nat, k: nat)
    | LinkLeaf(i: nat, j: nat, k: nat)
    | Other(text: Text)

  datatype Node = Dir(entries: map<Name, Node>) | Regular(data: seq<byte>)

  type Entries = map<Name, Node>

  /** A directory above the working directory: the name of the entry that leads back down, and
      the entries beside it. */
  datatype Level = Level(name: Name, beside: Entries)

  /* ---- the tests ---- */

  datatype Test =
    | DirCreate | DirTraverse | DirDelete
    | FileCreate | FileStat | FileRead | FileAccess | FileChmod | FileReaddir
    | FileLink | FileUnlink | FileDelete

  /** What the leaves of the generated tree are. */
  datatype Kind = Nothing | Dirs | Files | Linked

  function Before(t: Test): Kind {
    match t
    case DirCreate => Nothing
    case DirTraverse => Dirs
    case DirDelete => Dirs
    case FileCreate => Nothing
    case FileUnlink => Linked
    case _ => Files
  }

  function After(t: Test): Kind {
    match t
    case DirCreate => Dirs
    case DirTraverse => Dirs
    case DirDelete => Nothing
    case FileLink => Linked
    case FileDelete => Nothing
    case _ => Files
  }

  function Xor(a: nat, b: nat): nat {
    if a == 0 && b == 0 then 0 else (a + b) % 2 + 2 * Xor(a / 2, b / 2)
  }

  /** Bit `k` of a number. */
  function Bit(n: nat, k: nat): nat {
    if k == 0 then n % 2 else Bit(n / 2, k - 1)
  }

  lemma {:induction false} XorBits(a: nat, b: nat, k: nat)
    ensures Bit(Xor(a, b), k) == (Bit(a, k) + Bit(b, k)) % 2
    decreases k
  {
    hide Xor;
    XorStep(a, b);
    if k > 0 {
      XorBits(a / 2, b / 2, k - 1);
    }
  }

  lemma XorStep(a: nat, b: nat)
    ensures Xor(a, b) % 2 == (a % 2 + b % 2) % 2 && Xor(a, b) / 2 == Xor(a / 2, b / 2)
  {
    hide Xor;
    XorFirst(a, b);
    TwoParts((a + b) % 2, Xor(a / 2, b / 2));
  }

  lemma XorFirst(a: nat, b: nat)
    ensures Xor(a, b) == (a + b) % 2 + 2 * Xor(a / 2, b / 2)
  {
  }

  lemma TwoParts(low: nat, rest: nat)
    requires low < 2
    ensures (low + 2 * rest) % 2 == low && (low + 2 * rest) / 2 == rest
  {
  }

  lemma {:induction false} ZeroBits(k: nat)
    ensures Bit(0, k) == 0
  {
    if k > 0 {
      ZeroBits(k - 1);
    }
  }

  /** Numbers with the same bits are the same. */
  lemma {:induction false} SameBits(a: nat, b: nat)
    requires forall k: nat :: Bit(a, k) == Bit(b, k)
    ensures a == b
    decreases a + b
  {
    if a + b > 0 {
      assert Bit(a, 0) == Bit(b, 0);
      forall k: nat
        ensures Bit(a / 2, k) == Bit(b / 2, k)
      {
        assert Bit(a, k + 1) == Bit(b, k + 1);
      }
      SameBits(a / 2, b / 2);
    }
  }

  /** The exclusive or is its own inverse, with 0 as the unit, in whatever order. */
  lemma XorLaws(a: nat, b: nat, c: nat)
    ensures Xor(a, 0) == a && Xor(a, a) == 0
    ensures Xor(a, b) == Xor(b, a) && Xor(Xor(a, b), c) == Xor(a, Xor(b, c))
    ensures Xor(Xor(a, b), b) == a
  {
    forall k: nat
      ensures Bit(Xor(a, 0), k) == Bit(a, k) && Bit(Xor(a, a), k) == Bit(0, k)
      ensures Bit(Xor(a, b), k) == Bit(Xor(b, a), k)
      ensures Bit(Xor(Xor(a, b), c), k) == Bit(Xor(a, Xor(b, c)), k)
      ensures Bit(Xor(Xor(a, b), b), k) == Bit(a, k)
    {
      BitsOfXor(a, b, c, k);
    }
    SameBits(Xor(a, 0), a);
    SameBits(Xor(a, a), 0);
    SameBits(Xor(a, b), Xor(b, a));
    SameBits(Xor(Xor(a, b), c), Xor(a, Xor(b, c)));
    SameBits(Xor(Xor(a, b), b), a);
  }

  lemma BitsOfXor(a: nat, b: nat, c: nat, k: nat)
    ensures Bit(Xor(a, 0), k) == Bit(a, k) && Bit(Xor(a, a), k) == Bit(0, k)
    ensures Bit(Xor(a, b), k) == Bit(Xor(b, a), k)
    ensures Bit(Xor(Xor(a, b), c), k) == Bit(Xor(a, Xor(b, c)), k)
    ensures Bit(Xor(Xor(a, b), b), k) == Bit(a, k)
  {
    hide Xor, Bit;
    ZeroBits(k);
    BitIsBit(a, k);
    BitIsBit(b, k);
    BitIsBit(c, k);
    XorBits(a, 0, k);
    XorBits(a, a, k);
    XorBits(a, b, k);
    XorBits(b, a, k);
    XorBits(Xor(a, b), c, k);
    XorBits(b, c, k);
    XorBits(a, Xor(b, c), k);
    XorBits(Xor(a, b), b, k);
    Parities(Bit(a, k), Bit(b, k), Bit(c, k));
  }

  lemma Parities(x: nat, y: nat, z: nat)
    requires x < 2
    ensures (x + 0) % 2 == x && (x + x) % 2 == 0 && (x + y) % 2 == (y + x) % 2
    ensures ((x + y) % 2 + z) % 2 == (x + (y + z) % 2) % 2 && ((x + y) % 2 + y) % 2 == x
  {
  }

  lemma {:induction false} BitIsBit(n: nat, k: nat)
    ensures Bit(n, k) < 2
  {
    if k > 0 {
      BitIsBit(n / 2, k - 1);
    }
  }

  /** The byte every byte of a file has. */
  function Value(i: nat, j: nat, k: nat): byte { (Xor(Xor(i, j), k) % 0x100) as byte }

  /** Each of its eight bits is set if and only if it is in an odd number of the three. */
  lemma ValueBits(i: nat, j: nat, k: nat, bit: nat)
    requires bit < 8
    ensures Bit(Value(i, j, k) as nat, bit) == (Bit(i, bit) + Bit(j, bit) + Bit(k, bit)) % 2
  {
    hide Xor, Bit;
    XorBits(i, j, bit);
    XorBits(Xor(i, j), k, bit);
    LowBits(Xor(Xor(i, j), k) / 0x100, Xor(Xor(i, j), k) % 0x100, 0x100, bit, 8);
  }

  /** `2^m`. */
  function Power(m: nat): nat { if m == 0 then 1 else 2 * Power(m - 1) }

  lemma {:induction false} LowBits(q: nat, r: nat, p: nat, k: nat, m: nat)
    requires k < m && (p == Power(m) || (p == 0x100 && m == 8))
    ensures Bit(p * q + r, k) == Bit(r, k)
    decreases k
  {
    assert Power(1) == 2 && Power(2) == 4 && Power(3) == 8 && Power(4) == 0x10;
    assert Power(5) == 0x20 && Power(6) == 0x40 && Power(7) == 0x80 && Power(8) == 0x100;
    var half := Power(m - 1);
    Halves(q, r, half);
    assert p == 2 * half;
    if k > 0 {
      LowBits(q, r / 2, half, k - 1, m - 1);
    }
  }

  lemma Halves(q: nat, r: nat, half: nat)
    ensures (2 * half * q + r) % 2 == r % 2 && (2 * half * q + r) / 2 == half * q + r / 2
  {
    var x := half * q;
    assert 2 * half * q == 2 * x;
  }

  function Content(size: nat, i: nat, j: nat, k: nat): (s: seq<byte>)
    ensures |s| == size && forall p :: 0 <= p < size ==> s[p] == Value(i, j, k)
  {
    seq(size, _ => Value(i, j, k))
  }

  /* ---- the generated tree, directory by directory ---- */

  /** `x` numbered entries, of which those below `at` are of kind `b` and the others of kind `a`. */
  datatype Range = Range(a: Kind, b: Kind, at: nat, x: nat)

  function KindAt(r: Range, k: nat): Kind { if k < r.at then r.b else r.a }

  function All(kind: Kind, x: nat): Range { Range(kind, kind, 0, x) }

  datatype Found = Missing | Found(node: Node)

  function Find(es: Entries, n: Name): Found { if n in es then Found(es[n]) else Missing }

  function LeafNames(x: nat, i: nat, j: nat): (s: set<Name>)
    ensures forall n :: n in s <==> (n.DirLeaf? || n.FileLeaf? || n.LinkLeaf?) && n.i == i && n.j == j && n.k < x
  {
    (set k: nat | k < x :: DirLeaf(i, j, k)) + (set k: nat | k < x :: FileLeaf(i, j, k))
        + (set k: nat | k < x :: LinkLeaf(i, j, k))
  }

  /** What stands under a name among the leaves of directory `i`, `j`. */
  function LeafAt(r: Range, size: nat, i: nat, j: nat, n: Name): Found {
    if n !in LeafNames(r.x, i, j) then Missing
    else
      var kind, file := KindAt(r, n.k), Found(Regular(Content(size, i, j, n.k)));
      if n.DirLeaf? then (if kind == Dirs then Found(Dir(map[])) else Missing)
      else if n.FileLeaf? then (if kind == Files || kind == Linked then file else Missing)
      else if kind == Linked then file else Missing
  }

  function Leaves(r: Range, size: nat, i: nat, j: nat): Entries {
    map n | n in LeafNames(r.x, i, j) && LeafAt(r, size, i, j, n).Found? :: LeafAt(r, size, i, j, n).node
  }

  function SubNames(x: nat, i: nat): (s: set<Name>)
    ensures forall n :: n in s <==> n.L2? && n.i == i && n.j < x
  {
    set j: nat | j < x :: L2(i, j)
  }

  /** Level 2 directories: there if there is anything in them to be. */
  function Subs(r: Range, size: nat, i: nat): Entries {
    map n | n in SubNames(r.x, i) && KindAt(r, n.j) != Nothing :: Dir(Leaves(All(KindAt(r, n.j), r.x), size, i, n.j))
  }

  function TopNames(x: nat): (s: set<Name>)
    ensures forall n :: n in s <==> n.L1? && n.i < x
  {
    set i: nat | i < x :: L1(i)
  }

  function Tops(r: Range, size: nat): Entries {
    map n | n in TopNames(r.x) && KindAt(r, n.i) != Nothing :: Dir(Subs(All(KindAt(r, n.i), r.x), size, n.i))
  }

  /** The starting directory with the generated tree in it. */
  function Grown(start: Entries, kind: Kind, x: nat, size: nat): Entries {
    start + Tops(All(kind, x), size)
  }

  /** None of the names the test would make are there yet. */
  predicate Clear(start: Entries, x: nat) { forall i: nat :: i < x ==> L1(i) !in start }

  lemma GrownNothing(start: Entries, x: nat, size: nat)
    ensures Grown(start, Nothing, x, size) == start
  {
    assert Tops(All(Nothing, x), size) == map[];
  }

  lemma LeavesAre(r: Range, size: nat, i: nat, j: nat, n: Name)
    ensures Find(Leaves(r, size, i, j), n) == LeafAt(r, size, i, j, n)
  {
  }

  /* ---- one step of each loop ---- */

  /** The change one turn of the innermost loop makes to the directory. */
  function LeafStep(t: Test, es: Entries, size: nat, i: nat, j: nat, k: nat): Entries {
    match t
    case DirCreate => es[DirLeaf(i, j, k) := Dir(map[])]
    case DirDelete => es - {DirLeaf(i, j, k)}
    case FileCreate => es[FileLeaf(i, j, k) := Regular(Content(size, i, j, k))]
    case FileLink => es[LinkLeaf(i, j, k) := Regular(Content(size, i, j, k))]
    case FileUnlink => es - {LinkLeaf(i, j, k)}
    case FileDelete => es - {FileLeaf(i, j, k)}
    case _ => es
  }

  lemma LeafTurn(t: Test, size: nat, x: nat, i: nat, j: nat, k: nat)
    requires k < x
    ensures var a, b := Before(t), After(t);
            LeafStep(t, Leaves(Range(a, b, k, x), size, i, j), size, i, j, k)
                == Leaves(Range(a, b, k + 1, x), size, i, j)
  {
    hide Leaves, LeafStep;
    var a, b := Before(t), After(t);
    var old', new' := LeafStep(t, Leaves(Range(a, b, k, x), size, i, j), size, i, j, k),
        Leaves(Range(a, b, k + 1, x), size, i, j);
    forall n: Name
      ensures Find(old', n) == Find(new', n)
    {
      LeafTurnAt(t, size, x, i, j, k, n);
    }
    SameEntries(old', new');
  }

  lemma LeafTurnAt(t: Test, size: nat, x: nat, i: nat, j: nat, k: nat, n: Name)
    requires k < x
    ensures var a, b := Before(t), After(t);
            Find(LeafStep(t, Leaves(Range(a, b, k, x), size, i, j), size, i, j, k), n)
                == Find(Leaves(Range(a, b, k + 1, x), size, i, j), n)
  {
    hide Leaves, Content;
    LeavesAre(Range(Before(t), After(t), k, x), size, i, j, n);
    LeavesAre(Range(Before(t), After(t), k + 1, x), size, i, j, n);
  }

  lemma SameEntries(a: Entries, b: Entries)
    requires forall n: Name :: Find(a, n) == Find(b, n)
    ensures a == b
  {
    forall n: Name
      ensures n in a <==> n in b
      ensures n in a && n in b ==> a[n] == b[n]
    {
      assert Find(a, n) == Find(b, n);
    }
  }

  lemma LeavesEnds(a: Kind, b: Kind, size: nat, x: nat, i: nat, j: nat)
    ensures Leaves(Range(a, b, 0, x), size, i, j) == Leaves(All(a, x), size, i, j)
    ensures Leaves(Range(a, b, x, x), size, i, j) == Leaves(All(b, x), size, i, j)
  {
    SameLeaves(Range(a, b, 0, x), All(a, x), size, i, j);
    SameLeaves(Range(a, b, x, x), All(b, x), size, i, j);
  }

  lemma SameLeaves(r: Range, s: Range, size: nat, i: nat, j: nat)
    requires r.x == s.x && forall k: nat :: k < r.x ==> KindAt(r, k) == KindAt(s, k)
    ensures Leaves(r, size, i, j) == Leaves(s, size, i, j)
  {
    hide Leaves;
    forall n: Name
      ensures Find(Leaves(r, size, i, j), n) == Find(Leaves(s, size, i, j), n)
    {
      LeavesAre(r, size, i, j, n);
      LeavesAre(s, size, i, j, n);
    }
    SameEntries(Leaves(r, size, i, j), Leaves(s, size, i, j));
  }

  lemma SubsEnds(a: Kind, b: Kind, size: nat, x: nat, i: nat)
    ensures Subs(Range(a, b, 0, x), size, i) == Subs(All(a, x), size, i)
    ensures Subs(Range(a, b, x, x), size, i) == Subs(All(b, x), size, i)
  {
  }

  lemma TopsEnds(a: Kind, b: Kind, size: nat, x: nat)
    ensures Tops(Range(a, b, 0, x), size) == Tops(All(a, x), size)
    ensures Tops(Range(a, b, x, x), size) == Tops(All(b, x), size)
  {
    hide Subs;
  }

  lemma NothingIn(size: nat, x: nat, i: nat, j: nat)
    ensures Leaves(All(Nothing, x), size, i, j) == map[]
    ensures Subs(All(Nothing, x), size, i) == map[]
  {
  }

  /** What stands under the name of the next level 2 directory, and what putting the finished
      directory there, or removing it, makes of the level 1 directory. */
  lemma SubTurn(t: Test, size: nat, x: nat, i: nat, j: nat)
    requires j < x
    ensures var a, b, n := Before(t), After(t), L2(i, j);
            var es, next := Subs(Range(a, b, j, x), size, i), Subs(Range(a, b, j + 1, x), size, i);
            && Find(es, n) == (if a == Nothing then Missing else Found(Dir(Leaves(All(a, x), size, i, j))))
            && next == if b == Nothing then es - {n} else es[n := Dir(Leaves(All(b, x), size, i, j))]
  {
    hide Leaves;
    assert L2(i, j) in SubNames(x, i);
  }

  lemma TopTurn(t: Test, start: Entries, size: nat, x: nat, i: nat)
    requires i < x && L1(i) !in start
    ensures var a, b, n := Before(t), After(t), L1(i);
            var es, next := start + Tops(Range(a, b, i, x), size), start + Tops(Range(a, b, i + 1, x), size);
            && Find(es, n) == (if a == Nothing then Missing else Found(Dir(Subs(All(a, x), size, i))))
            && next == if b == Nothing then es - {n} else es[n := Dir(Subs(All(b, x), size, i))]
  {
    hide Tops, Subs;
    TopsTurn(t, size, x, i);
  }

  lemma TopsTurn(t: Test, size: nat, x: nat, i: nat)
    requires i < x
    ensures var a, b, n := Before(t), After(t), L1(i);
            var es, next := Tops(Range(a, b, i, x), size), Tops(Range(a, b, i + 1, x), size);
            && Find(es, n) == (if a == Nothing then Missing else Found(Dir(Subs(All(a, x), size, i))))
            && next == if b == Nothing then es - {n} else es[n := Dir(Subs(All(b, x), size, i))]
  {
    hide Subs;
    assert L1(i) in TopNames(x);
  }

  /** What a turn of the innermost loop needs to go well. */
  predicate Ready(t: Test, es: Entries, size: nat, i: nat, j: nat, k: nat) {
    var dir, file, link := Find(es, DirLeaf(i, j, k)), Find(es, FileLeaf(i, j, k)), Find(es, LinkLeaf(i, j, k));
    var written := Found(Regular(Content(size, i, j, k)));
    match t
    case DirCreate => dir == Missing
    case DirTraverse => dir == Found(Dir(map[]))
    case DirDelete => dir == Found(Dir(map[]))
    case FileCreate => file == Missing
    case FileLink => file == written && link == Missing
    case FileUnlink => link == written
    case _ => file == written
  }

  lemma LeafReady(t: Test, size: nat, x: nat, i: nat, j: nat, k: nat)
    requires k < x
    ensures Ready(t, Leaves(Range(Before(t), After(t), k, x), size, i, j), size, i, j, k)
  {
    var r := Range(Before(t), After(t), k, x);
    LeavesAre(r, size, i, j, DirLeaf(i, j, k));
    LeavesAre(r, size, i, j, FileLeaf(i, j, k));
    LeavesAre(r, size, i, j, LinkLeaf(i, j, k));
  }

  /* ---- how many operations are timed ---- */

  /** Operations timed for each second-level and each first-level directory itself, and in the former
      for its leaves. */
  function PerSub(t: Test): nat { if t.DirCreate? || t.DirTraverse? || t.DirDelete? || t.FileReaddir? then 1 else 0 }
  function PerTop(t: Test): nat { if t.DirCreate? || t.DirTraverse? || t.DirDelete? then 1 else 0 }

  function LeafCount(t: Test, x: nat): nat { if t.FileReaddir? then 0 else x }

  function SubCount(t: Test, n: nat, x: nat): nat {
    if n == 0 then 0 else SubCount(t, n - 1, x) + LeafCount(t, x) + PerSub(t)
  }

  function TopCount(t: Test, n: nat, x: nat): nat {
    if n == 0 then 0 else TopCount(t, n - 1, x) + SubCount(t, x, x) + PerTop(t)
  }

  lemma {:induction false} SubCountIs(t: Test, n: nat, x: nat)
    ensures SubCount(t, n, x) == n * (LeafCount(t, x) + PerSub(t))
  {
    if n > 0 {
      SubCountIs(t, n - 1, x);
      assert n * (LeafCount(t, x) + PerSub(t))
          == (n - 1) * (LeafCount(t, x) + PerSub(t)) + (LeafCount(t, x) + PerSub(t));
    }
  }

  lemma {:induction false} TopCountIs(t: Test, n: nat, x: nat)
    ensures TopCount(t, n, x) == n * (x * (LeafCount(t, x) + PerSub(t)) + PerTop(t))
  {
    if n > 0 {
      TopCountIs(t, n - 1, x);
      SubCountIs(t, x, x);
      var per := x * (LeafCount(t, x) + PerSub(t)) + PerTop(t);
      assert n * per == (n - 1) * per + per;
    }
  }

  lemma Cubes(x: nat)
    ensures x * (x * (x + 1) + 1) == x + x * x + x * x * x
    ensures x * (x * (x + 0) + 0) == x * x * x
    ensures x * (x * (0 + 1) + 0) == x * x
  {
    assert x * (x + 1) == x * x + x;
    assert x * (x * x + x + 1) == x * (x * x) + x * x + x;
  }

  /** Tests of directories time one operation for every directory, readdir one for every second-level
      directory, and the others one for every file. */
  function Operations(t: Test, x: nat): nat {
    match t
    case DirCreate => x + x * x + x * x * x
    case DirTraverse => x + x * x + x * x * x
    case DirDelete => x + x * x + x * x * x
    case FileReaddir => x * x
    case _ => x * x * x
  }

  lemma Counters(t: Test, x: nat)
    ensures TopCount(t, x, x) == Operations(t, x)
  {
    TopCountIs(t, x, x);
    Cubes(x);
  }

  /* ---- the loop over force factors ---- */

  /** About to run the tests with one factor, or at the end of the program. */
  datatype LoopState = Running(x: nat) | Finished | Exited

  function Next(x: nat, upper: nat): LoopState { if x <= upper then Running(x) else Finished }

  /** One round, from a directory that then is as it was, unless the program exits. */
  ghost function Turn(start: Entries, upper: nat, incr: nat, s: LoopState): LoopState {
    match s
    case Running(x) => if Clear(start, x) then Next(x + incr, upper) else Exited
    case _ => s
  }

  ghost function AfterRounds(start: Entries, upper: nat, incr: nat, s: LoopState, rounds: nat): LoopState
    decreases rounds
  {
    if rounds == 0 then s else AfterRounds(start, upper, incr, Turn(start, upper, incr, s), rounds - 1)
  }

  /** The largest factor the loop comes to, if nothing stops it. */
  function Largest(x: nat, upper: nat, incr: nat): (y: nat)
    requires x <= upper
    ensures x <= y <= upper
    decreases upper - x
  {
    if incr == 0 || x + incr > upper then x else Largest(x + incr, upper, incr)
  }

  lemma {:induction false} Ends(start: Entries, upper: nat, incr: nat, x: nat) returns (rounds: nat)
    requires x <= upper && (incr >= 1 || !Clear(start, x))
    ensures AfterRounds(start, upper, incr, Running(x), rounds) ==
            if Clear(start, Largest(x, upper, incr)) then Finished else Exited
    decreases upper - x
  {
    var s := Turn(start, upper, incr, Running(x));
    if s.Running? {
      var more := Ends(start, upper, incr, x + incr);
      rounds := more + 1;
    } else {
      rounds := 1;
      assert AfterRounds(start, upper, incr, s, 0) == s;
      assert AfterRounds(start, upper, incr, Running(x), 1) == s;
      assert !Clear(start, x) ==> !Clear(start, Largest(x, upper, incr));
    }
  }

  /** Once at the end the program stays there. */
  lemma {:induction false} Stays(start: Entries, upper: nat, incr: nat, s: LoopState, rounds: nat)
    requires !s.Running?
    ensures AfterRounds(start, upper, incr, s, rounds) == s
    decreases rounds
  {
    if rounds > 0 {
      Stays(start, upper, incr, s, rounds - 1);
    }
  }

  lemma {:induction false} OneEnd(start: Entries, upper: nat, incr: nat, s: LoopState, n: nat, m: nat)
    requires !AfterRounds(start, upper, incr, s, n).Running? && !AfterRounds(start, upper, incr, s, m).Running?
    ensures AfterRounds(start, upper, incr, s, n) == AfterRounds(start, upper, incr, s, m)
    decreases n
  {
    if n == 0 || m == 0 {
      Stays(start, upper, incr, s, n);
      Stays(start, upper, incr, s, m);
    } else {
      OneEnd(start, upper, incr, Turn(start, upper, incr, s), n - 1, m - 1);
    }
  }

  /** With an increment of 0 a factor that goes well goes on for ever. */
  lemma {:induction false} GoesOn(start: Entries, upper: nat, x: nat, rounds: nat)
    requires x <= upper && Clear(start, x)
    ensures AfterRounds(start, upper, 0, Running(x), rounds) == Running(x)
    decreases rounds
  {
    if rounds > 0 {
      GoesOn(start, upper, x, rounds - 1);
    }
  }

  /** The program comes to its end if and only if the loop does not start, or the increment is not 0
      (which option -i allows), or a name it would make is there in the first round. */
  lemma ForceLoopEnds(start: Entries, lower: nat, upper: nat, incr: nat)
    ensures (exists rounds: nat :: !AfterRounds(start, upper, incr, Next(lower, upper), rounds).Running?) <==>
            lower > upper || incr >= 1 || !Clear(start, lower)
  {
    if lower > upper {
      assert !AfterRounds(start, upper, incr, Next(lower, upper), 0).Running?;
    } else if incr >= 1 || !Clear(start, lower) {
      var rounds := Ends(start, upper, incr, lower);
      assert !AfterRounds(start, upper, incr, Next(lower, upper), rounds).Running?;
    } else {
      forall rounds: nat
        ensures AfterRounds(start, upper, incr, Next(lower, upper), rounds).Running?
      {
        GoesOn(start, upper, lower, rounds);
      }
    }
  }

  /** It exits if and only if the loop starts and a name of the largest factor it comes to is there. */
  lemma ForceLoopExits(start: Entries, lower: nat, upper: nat, incr: nat)
    ensures (exists rounds: nat :: AfterRounds(start, upper, incr, Next(lower, upper), rounds).Exited?) <==>
            lower <= upper && !Clear(start, Largest(lower, upper, incr))
  {
    if lower > upper {
      forall rounds: nat
        ensures !AfterRounds(start, upper, incr, Next(lower, upper), rounds).Exited?
      {
        Stays(start, upper, incr, Finished, rounds);
      }
    } else if incr >= 1 || !Clear(start, lower) {
      var n := Ends(start, upper, incr, lower);
      assert AfterRounds(start, upper, incr, Next(lower, upper), n)
          == if Clear(start, Largest(lower, upper, incr)) then Finished else Exited;
      forall m: nat | AfterRounds(start, upper, incr, Next(lower, upper), m).Exited?
        ensures !Clear(start, Largest(lower, upper, incr))
      {
        OneEnd(start, upper, incr, Next(lower, upper), n, m);
      }
    } else {
      forall rounds: nat
        ensures AfterRounds(start, upper, incr, Next(lower, upper), rounds).Running?
      {
        GoesOn(start, upper, lower, rounds);
      }
    }
  }
}
