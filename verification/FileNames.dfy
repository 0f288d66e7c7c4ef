/** The names as sprintf prints them: in one directory no two of them are the same. */
module FileNames {
  import opened FileTree

  function Number(s: string): int {
    if s == [] then 0 else 10 * Number(s[..|s| - 1]) + (s[|s| - 1] as int - '0' as int)
  }

  lemma {:induction false} DecimalReadsBack(n: nat)
    ensures Number(Decimal(n)) == n
  {
    if n < 10 {
      assert [Digit(n)][..0] == [];
    } else {
      DecimalReadsBack(n / 10);
      var s := Decimal(n);
      assert s[..|s| - 1] == Decimal(n / 10);
    }
  }

  function Printed(n: Name): string {
    match n
    case L1(i) => TopText(i)
    case L2(i, j) => "fileop_L1_" + Decimal(i) + "_L2_" + Decimal(j)
    case DirLeaf(i, j, k) => "fileop_dir_" + (Decimal(i) + "_" + Decimal(j) + "_") + Decimal(k)
    case FileLeaf(i, j, k) => "fileop_file_" + (Decimal(i) + "_" + Decimal(j) + "_") + Decimal(k)
    case LinkLeaf(i, j, k) => "fileop_file_" + (Decimal(i) + "_" + Decimal(j) + "_") + Decimal(k) + "L"
    case Other(text) => text
  }

  /** As in fileop's own format strings. */
  lemma PrintedSo()
    ensures Printed(L1(7)) == "fileop_L1_7" && Printed(L2(7, 12)) == "fileop_L1_7_L2_12"
    ensures Printed(DirLeaf(7, 12, 0)) == "fileop_dir_7_12_0"
    ensures Printed(FileLeaf(7, 12, 0)) == "fileop_file_7_12_0" && Printed(LinkLeaf(7, 12, 0)) == "fileop_file_7_12_0L"
  {
    hide Decimal;
    SmallNumbers();
  }

  lemma SmallNumbers()
    ensures Decimal(7) == "7" && Decimal(12) == "12" && Decimal(0) == "0"
  {
    assert Digit(7) == '7' && Digit(1) == '1' && Digit(2) == '2' && Digit(0) == '0';
    assert Decimal(1) == "1";
  }

  /** Names in the same directory, one of them put there by fileop: what it makes in the directory it
      is started in lies beside anything else. */
  predicate Siblings(n: Name, m: Name) {
    || n.L1? || m.L1?
    || (n.L2? && m.L2? && n.i == m.i)
    || (IsLeaf(n) && IsLeaf(m) && n.i == m.i && n.j == m.j)
  }

  predicate IsLeaf(n: Name) { n.DirLeaf? || n.FileLeaf? || n.LinkLeaf? }

  lemma SameNumber(prefix: string, k: nat, l: nat)
    requires prefix + Decimal(k) == prefix + Decimal(l)
    ensures k == l
  {
    assert Decimal(k) == (prefix + Decimal(k))[|prefix|..];
    assert Decimal(l) == (prefix + Decimal(l))[|prefix|..];
    DecimalReadsBack(k);
    DecimalReadsBack(l);
  }

  lemma LastIs(prefix: string, k: nat)
    ensures var s := prefix + Decimal(k); '0' <= s[|s| - 1] <= '9'
  {
  }

  lemma SiblingsDiffer(n: Name, m: Name)
    requires Siblings(n, m) && Printed(n) == Printed(m)
    ensures n == m
  {
    hide Decimal, Number;
    match n
    case L1(i) => TopDiffers(n, m);
    case L2(i, j) =>
      if m.L1? {
        TopDiffers(m, n);
      } else {
        SameNumber("fileop_L1_" + Decimal(i) + "_L2_", n.j, m.j);
      }
    case _ =>
      if m.L1? {
        TopDiffers(m, n);
      } else {
        LeavesDiffer(n, m);
      }
  }

  /** A first-level name is told from every other one. */
  lemma TopDiffers(n: Name, m: Name)
    requires n.L1? && Printed(n) == Printed(m)
    ensures n == m
  {
    hide Decimal, Number;
    TopShows(n);
    match m
    case L1(i) => SameNumber("fileop_L1_", n.i, m.i);
    case L2(i, j) => SubShows(m);
    case Other(text) =>
    case _ => KindShows(m);
  }

  /** Digits follow the first ten characters. */
  lemma TopShows(n: Name)
    requires n.L1?
    ensures |Printed(n)| > 10 && Printed(n)[7] == 'L'
    ensures forall p :: 10 <= p < |Printed(n)| ==> '0' <= Printed(n)[p] <= '9'
  {
  }

  /** Behind the digits comes something else. */
  lemma SubShows(n: Name)
    requires n.L2?
    ensures |Printed(n)| > 10 + |Decimal(n.i)| && Printed(n)[10 + |Decimal(n.i)|] == '_'
  {
  }

  lemma LeavesDiffer(n: Name, m: Name)
    requires IsLeaf(n) && IsLeaf(m) && n.i == m.i && n.j == m.j && Printed(n) == Printed(m)
    ensures n == m
  {
    hide Printed, Decimal;
    KindShows(n);
    KindShows(m);
    assert n.DirLeaf? <==> m.DirLeaf?;
    assert n.LinkLeaf? <==> m.LinkLeaf?;
    NumberShows(n);
    NumberShows(m);
    assert Prefix(n) == Prefix(m);
    SameNumber(Prefix(n), n.k, m.k);
  }

  /** What a leaf's name begins with, but for its own number. */
  function Prefix(n: Name): string
    requires IsLeaf(n)
  {
    (if n.DirLeaf? then "fileop_dir_" else "fileop_file_") + (Decimal(n.i) + "_" + Decimal(n.j) + "_")
  }

  lemma NumberShows(n: Name)
    requires IsLeaf(n)
    ensures !n.LinkLeaf? ==> Printed(n) == Prefix(n) + Decimal(n.k)
    ensures n.LinkLeaf?
        ==> Printed(n) == Prefix(n) + Decimal(n.k) + "L" && Printed(n)[..|Printed(n)| - 1] == Prefix(n) + Decimal(n.k)
  {
  }

  /** The eighth character tells directories from files, the last one links from both. */
  lemma KindShows(n: Name)
    requires IsLeaf(n)
    ensures |Printed(n)| > 8
    ensures Printed(n)[7] == if n.DirLeaf? then 'd' else 'f'
    ensures Printed(n)[|Printed(n)| - 1] == 'L' <==> n.LinkLeaf?
  {
    NumberShows(n);
    LastIs(Prefix(n), n.k);
  }
}
