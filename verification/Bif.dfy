/** libbif: a writer of spreadsheet cells as length-framed binary records, and the reader its
    output is meant for. */
module BifFormat {
  import opened Posix

  const BOF := 0x9
  const INTEGER := 0x2
  const FLOAT := 0x3
  const LABEL := 0x4
  const EOF := 0xa
  const EXCEL_VERS := 0x2
  const WORKSHEET := 0x10

  /** One call of do_int, do_float or do_label.  A double is its eight bytes, the most
      significant first; a string its characters up to the terminating NUL. */
  datatype Cell =
    | IntCell(val: int, row: int, column: int)
    | FloatCell(bits: seq<byte>, row: int, column: int)
    | LabelCell(text: seq<byte>, row: int, column: int)

  datatype Option<T> = None | Some(value: T)

  datatype Frame = Frame(opcode: nat, body: seq<byte>)

  predicate WellFormed(c: Cell) {
    match c
    case IntCell(_, _, _) => true
    case FloatCell(bits, _, _) => |bits| == 8
    case LabelCell(text, _, _) => forall i :: 0 <= i < |text| ==> text[i] != 0
  }

  /** The two bytes of the low sixteen bits, low byte first, whatever the sign. */
  function Low(v: int): byte { (v % 0x100) as byte }
  function High(v: int): byte { (v / 0x100 % 0x100) as byte }
  function Short(v: int): seq<byte> { [Low(v), High(v)] }

  function Unsigned(low: byte, high: byte): nat { low as int + 0x100 * high as int }

  lemma ShortRoundTrip(v: int)
    ensures Unsigned(Low(v), High(v)) == v % 0x1_0000
  {
    var rest := v / 0x100;
    var low, high, above := v % 0x100, rest % 0x100, rest / 0x100;
    assert v == 0x100 * rest + low && rest == 0x100 * above + high;
    assert v == 0x1_0000 * above + (0x100 * high + low);
  }

  /* ---- writing ---- */

  function FrameBytes(f: Frame): seq<byte> {
    Short(f.opcode) + Short(|f.body|) + f.body
  }

  function Position(row: int, column: int): seq<byte> {
    Short(row) + Short(column) + [0, 0, 0]
  }

  /** The characters of a label record: the string, cut when it is too long, and zeros.  The last
      of the 256 is never set, unless the string is so long that its NUL falls there. */
  function LabelText(text: seq<byte>, stack: byte): (r: seq<byte>)
    ensures |r| == 0x100
  {
    Padded(if |text| > 255 then text[..254] else text, stack)
  }

  function Padded(kept: seq<byte>, stack: byte): (r: seq<byte>)
    requires |kept| <= 255
    ensures |r| == 0x100
  {
    kept + seq(255 - |kept|, _ => 0) + [if |kept| == 255 then 0 else stack]
  }

  function Reversed(bits: seq<byte>): (r: seq<byte>)
    ensures |r| == |bits|
  {
    seq(|bits|, i requires 0 <= i < |bits| => bits[|bits| - 1 - i])
  }

  /** The frame a well-formed cell becomes; `stack` is what the stack held. */
  function FrameOf(c: Cell, stack: byte): Frame {
    match c
    case IntCell(val, row, column) => Frame(INTEGER, Position(row, column) + Short(val))
    case FloatCell(bits, row, column) => Frame(FLOAT, Position(row, column) + Reversed(bits))
    case LabelCell(text, row, column) => Frame(LABEL, Position(row, column) + [Low(|text|)] + LabelText(text, stack))
  }

  function Header(): Frame { Frame(BOF, Short(EXCEL_VERS) + Short(WORKSHEET)) }

  function Footer(): Frame { Frame(EOF, []) }

  /** A finished worksheet. */
  function Sheet(cells: seq<Cell>, stack: seq<byte>): seq<byte>
    requires |stack| == |cells|
  {
    FrameBytes(Header()) + Body(cells, stack) + FrameBytes(Footer())
  }

  function Body(cells: seq<Cell>, stack: seq<byte>): seq<byte>
    requires |stack| == |cells|
  {
    if cells == [] then [] else FrameBytes(FrameOf(cells[0], stack[0])) + Body(cells[1..], stack[1..])
  }

  /* ---- reading ---- */

  /** Walk the frames by their length fields. */
  function Frames(bytes: seq<byte>): Option<seq<Frame>> {
    if bytes == [] then Some([])
    else if |bytes| < 4 then None
    else
      var n := Unsigned(bytes[2], bytes[3]);
      if |bytes| < 4 + n then None
      else
        var rest := Frames(bytes[4 + n..]);
        if rest.None? then None
        else Some([Frame(Unsigned(bytes[0], bytes[1]), bytes[4..4 + n])] + rest.value)
  }

  /** The reader knows the records by their numbers: 2, 3 and 4 are cells, 9 begins a worksheet (16) of
      Excel version 2, and 10 ends it. */
  function CellOf(f: Frame): Option<Cell> {
    if |f.body| < 7 then None
    else
      var row, column := Unsigned(f.body[0], f.body[1]), Unsigned(f.body[2], f.body[3]);
      if f.opcode == 2 && |f.body| == 9 then
        Some(IntCell(Unsigned(f.body[7], f.body[8]), row, column))
      else if f.opcode == 3 && |f.body| == 15 then
        Some(FloatCell(Reversed(f.body[7..]), row, column))
      else if f.opcode == 4 && |f.body| >= 8 && |f.body| >= 8 + f.body[7] as int then
        Some(LabelCell(f.body[8..8 + f.body[7] as int], row, column))
      else None
  }

  function Cells(frames: seq<Frame>): Option<seq<Cell>> {
    if frames == [] then Some([])
    else
      var first, rest := CellOf(frames[0]), Cells(frames[1..]);
      if first.None? || rest.None? then None else Some([first.value] + rest.value)
  }

  /** The cells between the header and the end-of-file record. */
  function Read(bytes: seq<byte>): Option<seq<Cell>> {
    var frames := Frames(bytes);
    if frames.None? || |frames.value| < 2 then None
    else
      var n := |frames.value|;
      if frames.value[0] != Frame(9, [2, 0, 16, 0]) || frames.value[n - 1] != Frame(10, []) then None
      else Cells(frames.value[1..n - 1])
  }

  /* ---- the round trip ---- */

  /** What the format keeps of a cell: sixteen bits of every number, and of a string longer than
      255 the part its length byte still covers. */
  function Stored(c: Cell): Cell {
    match c
    case IntCell(val, row, column) => IntCell(val % 0x1_0000, row % 0x1_0000, column % 0x1_0000)
    case FloatCell(bits, row, column) => FloatCell(bits, row % 0x1_0000, column % 0x1_0000)
    case LabelCell(text, row, column) =>
      LabelCell(if |text| <= 255 then text else LabelText(text, 0)[..|text| % 0x100], row % 0x1_0000, column % 0x1_0000)
  }

  function AllStored(cells: seq<Cell>): (r: seq<Cell>)
    ensures |r| == |cells|
  {
    if cells == [] then [] else [Stored(cells[0])] + AllStored(cells[1..])
  }

  function FramesOf(cells: seq<Cell>, stack: seq<byte>): (r: seq<Frame>)
    requires |stack| == |cells|
    ensures |r| == |cells|
  {
    if cells == [] then [] else [FrameOf(cells[0], stack[0])] + FramesOf(cells[1..], stack[1..])
  }

  predicate Small(f: Frame) { f.opcode < 0x1_0000 && |f.body| < 0x1_0000 }

  lemma FrameOfIsSmall(c: Cell, stack: byte)
    requires WellFormed(c)
    ensures Small(FrameOf(c, stack))
  {
  }

  /** Where a frame in front ends, and what its header says. */
  lemma FrameParts(f: Frame, rest: seq<byte>)
    requires Small(f)
    ensures var bytes, n := FrameBytes(f) + rest, |f.body|;
            && |bytes| == 4 + n + |rest|
            && Unsigned(bytes[0], bytes[1]) == f.opcode && Unsigned(bytes[2], bytes[3]) == n
            && bytes[4..4 + n] == f.body && bytes[4 + n..] == rest
  {
    ShortRoundTrip(f.opcode);
    ShortRoundTrip(|f.body|);
    var head := Short(f.opcode) + Short(|f.body|);
    assert FrameBytes(f) + rest == head + (f.body + rest);
  }

  /** A frame in front is read as that frame, followed by whatever follows. */
  lemma FrameInFront(f: Frame, rest: seq<byte>)
    requires Small(f) && Frames(rest).Some?
    ensures Frames(FrameBytes(f) + rest) == Some([f] + Frames(rest).value)
  {
    hide FrameBytes, Unsigned;
    FrameParts(f, rest);
  }

  lemma {:induction false} BodyFrames(cells: seq<Cell>, stack: seq<byte>, rest: seq<byte>)
    requires |stack| == |cells|
    requires forall i :: 0 <= i < |cells| ==> WellFormed(cells[i])
    requires Frames(rest).Some?
    ensures Frames(Body(cells, stack) + rest) == Some(FramesOf(cells, stack) + Frames(rest).value)
    decreases |cells|
  {
    hide Frames, FrameBytes, FrameOf, WellFormed;
    if cells == [] {
      assert [] + rest == rest && [] + Frames(rest).value == Frames(rest).value;
    } else {
      var f, more := FrameOf(cells[0], stack[0]), Body(cells[1..], stack[1..]);
      BodyFrames(cells[1..], stack[1..], rest);
      FrameOfIsSmall(cells[0], stack[0]);
      FrameInFront(f, more + rest);
      assert FrameBytes(f) + more + rest == FrameBytes(f) + (more + rest);
      assert [f] + FramesOf(cells[1..], stack[1..]) + Frames(rest).value
          == [f] + (FramesOf(cells[1..], stack[1..]) + Frames(rest).value);
    }
  }

  lemma PositionReadsBack(row: int, column: int, rest: seq<byte>)
    ensures var body := Position(row, column) + rest;
            && |body| == 7 + |rest| && body[7..] == rest
            && Unsigned(body[0], body[1]) == row % 0x1_0000 && Unsigned(body[2], body[3]) == column % 0x1_0000
  {
    hide Low, High, Unsigned;
    ShortRoundTrip(row);
    ShortRoundTrip(column);
  }

  /** A reader that takes as many characters as the length byte says gets the stored string. */
  lemma TextReadsBack(text: seq<byte>, stack: byte)
    ensures var n := Low(|text|) as int;
            LabelText(text, stack)[..n] == Stored(LabelCell(text, 0, 0)).text
  {
    var n := |text| % 0x100;
    assert LabelText(text, stack)[..n] == LabelText(text, 0)[..n];
    if |text| <= 255 {
      assert LabelText(text, stack)[..n] == text;
    }
  }

  lemma {:induction false} CellRoundTrip(c: Cell, stack: byte)
    requires WellFormed(c)
    ensures CellOf(FrameOf(c, stack)) == Some(Stored(c))
  {
    hide Position, Low, High, Unsigned, LabelText, Reversed;
    match c
    case IntCell(val, row, column) =>
      ShortRoundTrip(val);
      PositionReadsBack(row, column, Short(val));
      IntBody(FrameOf(c, stack).body, row, column, val);
    case FloatCell(bits, row, column) =>
      PositionReadsBack(row, column, Reversed(bits));
      ReversedTwice(bits);
    case LabelCell(text, row, column) =>
      var rest := [Low(|text|)] + LabelText(text, stack);
      PositionReadsBack(row, column, rest);
      TextReadsBack(text, stack);
      LabelBody(FrameOf(c, stack).body, row, column, text, stack);
  }

  lemma IntBody(body: seq<byte>, row: int, column: int, val: int)
    requires body == Position(row, column) + Short(val)
    ensures |body| == 9 && body[7] == Low(val) && body[8] == High(val)
  {
  }

  lemma LabelBody(body: seq<byte>, row: int, column: int, text: seq<byte>, stack: byte)
    requires body == Position(row, column) + [Low(|text|)] + LabelText(text, stack)
    ensures body == Position(row, column) + ([Low(|text|)] + LabelText(text, stack))
    ensures |body| == 264 && body[7] == Low(|text|)
    ensures var n := Low(|text|) as int; body[8..8 + n] == LabelText(text, stack)[..n]
  {
    assert body[8..] == LabelText(text, stack);
  }

  lemma {:induction false} CellsRoundTrip(cells: seq<Cell>, stack: seq<byte>)
    requires |stack| == |cells|
    requires forall i :: 0 <= i < |cells| ==> WellFormed(cells[i])
    ensures Cells(FramesOf(cells, stack)) == Some(AllStored(cells))
  {
    if cells != [] {
      CellRoundTrip(cells[0], stack[0]);
      CellsRoundTrip(cells[1..], stack[1..]);
    }
  }

  /** Whatever was written between header and end of file, a reader walking the frames finds,
      each cell as the format keeps it. */
  lemma RoundTrip(cells: seq<Cell>, stack: seq<byte>)
    requires |stack| == |cells|
    requires forall i :: 0 <= i < |cells| ==> WellFormed(cells[i])
    ensures Read(Sheet(cells, stack)) == Some(AllStored(cells))
  {
    hide Cells, AllStored, Frames, FrameBytes, Body, FramesOf;
    SheetFrames(cells, stack);
    var frames := FramesOf(cells, stack);
    var all := [Header()] + frames + [Footer()];
    assert all[1..|all| - 1] == frames;
    CellsRoundTrip(cells, stack);
  }

  lemma SheetFrames(cells: seq<Cell>, stack: seq<byte>)
    requires |stack| == |cells|
    requires forall i :: 0 <= i < |cells| ==> WellFormed(cells[i])
    ensures Frames(Sheet(cells, stack)) == Some([Header()] + FramesOf(cells, stack) + [Footer()])
  {
    hide FrameBytes, Body, FramesOf;
    var end, body, frames := FrameBytes(Footer()), Body(cells, stack), FramesOf(cells, stack);
    FrameInFront(Footer(), []);
    assert end + [] == end && [Footer()] + [] == [Footer()];
    BodyFrames(cells, stack, end);
    FrameInFront(Header(), body + end);
    assert FrameBytes(Header()) + body + end == FrameBytes(Header()) + (body + end);
    assert [Header()] + frames + [Footer()] == [Header()] + (frames + [Footer()]);
  }

  predicate Fits(c: Cell) {
    && 0 <= c.row < 0x1_0000 && 0 <= c.column < 0x1_0000
    && (c.IntCell? ==> 0 <= c.val < 0x1_0000)
    && (c.LabelCell? ==> |c.text| <= 255)
  }

  lemma {:induction false} StoredExactly(cells: seq<Cell>)
    ensures AllStored(cells) == cells <==> forall i :: 0 <= i < |cells| ==> Fits(cells[i])
  {
    if cells != [] {
      StoredExactly(cells[1..]);
      var all := AllStored(cells);
      assert Stored(cells[0]) == cells[0] <==> Fits(cells[0]);
      assert all == cells <==> all[0] == cells[0] && all[1..] == cells[1..];
      assert forall i :: 1 <= i < |cells| ==> cells[i] == cells[1..][i - 1];
    }
  }

  /** The records come back unchanged exactly when every row, column and integer is an unsigned
      sixteen-bit number and no label is longer than 255. */
  lemma RoundTripExactly(cells: seq<Cell>, stack: seq<byte>)
    requires |stack| == |cells|
    requires forall i :: 0 <= i < |cells| ==> WellFormed(cells[i])
    ensures Read(Sheet(cells, stack)) == Some(cells) <==> forall i :: 0 <= i < |cells| ==> Fits(cells[i])
  {
    RoundTrip(cells, stack);
    StoredExactly(cells);
  }

  /** One more cell at the end. */
  lemma {:induction false} BodyMore(cells: seq<Cell>, stack: seq<byte>, c: Cell, s: byte)
    requires |stack| == |cells|
    ensures Body(cells + [c], stack + [s]) == Body(cells, stack) + FrameBytes(FrameOf(c, s))
  {
    hide FrameBytes, FrameOf;
    var last := FrameBytes(FrameOf(c, s));
    if cells == [] {
      assert cells + [c] == [c] && stack + [s] == [s];
      assert Body([c], [s]) == last + Body([c][1..], [s][1..]);
    } else {
      BodyMore(cells[1..], stack[1..], c, s);
      assert (cells + [c])[1..] == cells[1..] + [c] && (stack + [s])[1..] == stack[1..] + [s];
      var first := FrameBytes(FrameOf(cells[0], stack[0]));
      assert first + (Body(cells[1..], stack[1..]) + last) == first + Body(cells[1..], stack[1..]) + last;
    }
  }

  /* ---- the byte order of doubles ---- */

  const PROBE: seq<byte> := [1, 2, 3, 4, 5, 6, 7, 8]

  /** How the host lays out eight-byte values: at address `i` lies the byte of significance
      `order[i]`, 0 being the highest; and the first four bytes of the long 0x12345678. */
  datatype Host = Host(order: seq<nat>, long: seq<byte>)

  predicate IsHost(h: Host) {
    |h.order| == 8 && |h.long| == 4 && forall i :: 0 <= i < 8 ==> h.order[i] < 8
  }

  function InMemory(h: Host, bits: seq<byte>): (mem: seq<byte>)
    requires IsHost(h) && |bits| == 8
    ensures |mem| == 8 && forall i :: 0 <= i < 8 ==> mem[i] == bits[h.order[i]]
  {
    seq(8, i requires 0 <= i < 8 => bits[h.order[i]])
  }

  /** endian(): look at a value whose bytes are known. */
  function Endian(h: Host): int
    requires IsHost(h)
  {
    var c := InMemory(h, PROBE);
    if c == [8, 7, 6, 5, 4, 3, 2, 1] then 1
    else if c == [1, 2, 3, 4, 5, 6, 7, 8] then 2
    else if c == [4, 3, 2, 1, 8, 7, 6, 5] then 3
    else if h.long == [0x34, 0x12, 0x78, 0x56] then 4
    else -1
  }

  /** The eight bytes do_float writes for the value that lies in memory as `mem`, over a record
      that held `was`. */
  function FloatBytes(e: int, mem: seq<byte>, was: seq<byte>): (r: seq<byte>)
    requires |mem| == 8 && |was| == 8
    ensures |r| == 8
  {
    if e == 2 then [mem[7], mem[6], mem[5], mem[4], mem[3], mem[2], mem[1], mem[0]]
    else if e == 3 then [mem[4], mem[5], mem[6], mem[7], mem[0], mem[1], mem[2], mem[3]]
    else if e == 1 then mem
    else if e == -1 then [0, 0, 0, 0, 0, 0, 0, 0]
    else was
  }

  /** A double comes out little-endian, whatever it is and whatever the record held, on the hosts whose
      byte order is one of the first three and on no others. */
  lemma LittleEndian(h: Host)
    requires IsHost(h)
    ensures (forall bits: seq<byte>, was: seq<byte> :: |bits| == 8 && |was| == 8 ==>
               FloatBytes(Endian(h), InMemory(h, bits), was) == Reversed(bits)) <==> 1 <= Endian(h) <= 3
  {
    hide Endian, InMemory, FloatBytes;
    if 1 <= Endian(h) <= 3 {
      forall bits: seq<byte>, was: seq<byte> | |bits| == 8 && |was| == 8
        ensures FloatBytes(Endian(h), InMemory(h, bits), was) == Reversed(bits)
      {
        ComesOut(h, bits, was);
      }
    } else {
      var was: seq<byte> := [0, 0, 0, 0, 0, 0, 0, 0];
      Unsupported(h, PROBE, was);
      assert Reversed(PROBE)[0] == 8;
      assert FloatBytes(Endian(h), InMemory(h, PROBE), was) != Reversed(PROBE);
    }
  }

  lemma ComesOut(h: Host, bits: seq<byte>, was: seq<byte>)
    requires IsHost(h) && |bits| == 8 && |was| == 8
    requires 1 <= Endian(h) <= 3
    ensures FloatBytes(Endian(h), InMemory(h, bits), was) == Reversed(bits)
  {
    hide Endian, InMemory;
    Order(h);
    Placed(h, bits);
  }

  /** Which byte lies where, in each of the three orders. */
  lemma Placed(h: Host, bits: seq<byte>)
    requires IsHost(h) && |bits| == 8
    ensures var m := InMemory(h, bits);
            && (h.order == [7, 6, 5, 4, 3, 2, 1, 0] ==> m == Reversed(bits))
            && (h.order == [0, 1, 2, 3, 4, 5, 6, 7] ==> m == bits)
            && (h.order == [3, 2, 1, 0, 7, 6, 5, 4] ==> m == Reversed(bits[..4]) + Reversed(bits[4..]))
  {
    var o, m := h.order, InMemory(h, bits);
    assert forall i :: 0 <= i < 8 ==> m[i] == bits[o[i]];
  }

  /** endian() tells the byte order exactly. */
  lemma Order(h: Host)
    requires IsHost(h)
    ensures Endian(h) == 1 <==> h.order == [7, 6, 5, 4, 3, 2, 1, 0]
    ensures Endian(h) == 2 <==> h.order == [0, 1, 2, 3, 4, 5, 6, 7]
    ensures Endian(h) == 3 <==> h.order == [3, 2, 1, 0, 7, 6, 5, 4]
  {
    hide InMemory;
    SameOrder(h, [7, 6, 5, 4, 3, 2, 1, 0], [8, 7, 6, 5, 4, 3, 2, 1]);
    SameOrder(h, [0, 1, 2, 3, 4, 5, 6, 7], [1, 2, 3, 4, 5, 6, 7, 8]);
    SameOrder(h, [3, 2, 1, 0, 7, 6, 5, 4], [4, 3, 2, 1, 8, 7, 6, 5]);
  }

  lemma SameOrder(h: Host, o: seq<nat>, c: seq<byte>)
    requires IsHost(h) && |o| == 8 && |c| == 8
    requires forall i :: 0 <= i < 8 ==> c[i] as int == o[i] + 1
    ensures InMemory(h, PROBE) == c <==> h.order == o
  {
    OrderIsProbed(h);
    var mem := InMemory(h, PROBE);
    if mem == c {
      assert forall i :: 0 <= i < 8 ==> h.order[i] == o[i];
    } else if h.order == o {
      assert forall i :: 0 <= i < 8 ==> mem[i] == c[i];
    }
  }

  lemma OrderIsProbed(h: Host)
    requires IsHost(h)
    ensures var c := InMemory(h, PROBE);
            forall i :: 0 <= i < 8 ==> c[i] as int == h.order[i] + 1
  {
    assert forall n :: 0 <= n < 8 ==> PROBE[n] as int == n + 1;
  }

  lemma ReversedTwice(bits: seq<byte>)
    ensures Reversed(Reversed(bits)) == bits
  {
  }

  lemma Unsupported(h: Host, bits: seq<byte>, was: seq<byte>)
    requires IsHost(h) && |bits| == 8 && |was| == 8
    ensures var data := FloatBytes(Endian(h), InMemory(h, bits), was);
            && (Endian(h) == -1 ==> data == Reversed(data) == [0, 0, 0, 0, 0, 0, 0, 0])
            && (Endian(h) == 4 ==> data == was)
            && (1 <= Endian(h) <= 4 || Endian(h) == -1)
  {
  }
}

/** The writer itself. */
module Bif {
  import opened Posix
  import opened BifFormat

  class Worksheet {
    const host: Host
    /** What has been written to the file. */
    var output: seq<byte>
    /** The cells written so far, and the byte each record found on the stack. */
    ghost var cells: seq<Cell>
    ghost var stack: seq<byte>

    ghost predicate Open()
      reads this
    {
      && IsHost(host) && |stack| == |cells| && (forall i :: 0 <= i < |cells| ==> WellFormed(cells[i]))
      && output == FrameBytes(Header()) + Body(cells, stack)
    }

    /** create_xls and do_header. */
    constructor (host: Host)
      requires IsHost(host)
      ensures Open() && cells == [] && this.host == host
      ensures output == [9, 0, 4, 0, 2, 0, 16, 0]
    {
      this.host := host;
      cells, stack := [], [];
      output := [BOF as byte, 0, 4, 0, EXCEL_VERS as byte, 0, WORKSHEET as byte, 0];
    }

    ghost method Written(c: Cell, s: byte, before: seq<byte>)
      requires IsHost(host) && |stack| == |cells| && (forall i :: 0 <= i < |cells| ==> WellFormed(cells[i]))
      requires before == FrameBytes(Header()) + Body(cells, stack) && WellFormed(c)
      requires output == before + FrameBytes(FrameOf(c, s))
      modifies this`cells, this`stack
      ensures Open() && cells == old(cells) + [c]
    {
      hide FrameBytes, FrameOf, Body, WellFormed;
      BodyMore(cells, stack, c, s);
      cells, stack := cells + [c], stack + [s];
    }

    /** do_int */
    method DoInt(val: int, row: int, column: int)
      requires Open()
      modifies this
      ensures Open() && cells == old(cells) + [IntCell(val, row, column)]
      ensures output == old(output)
          + [2, 0, 9, 0, (row % 0x100) as byte, (row / 0x100 % 0x100) as byte, (column % 0x100) as byte,
             (column / 0x100 % 0x100) as byte, 0, 0, 0, (val % 0x100) as byte, (val / 0x100 % 0x100) as byte]
    {
      var rec := [INTEGER as byte, 0, 9, 0, Low(row), High(row), Low(column), High(column), 0, 0, 0,
                  Low(val), High(val)];
      output := output + rec;
      ghost var c := IntCell(val, row, column);
      assert rec == FrameBytes(FrameOf(c, 0));
      Written(c, 0, old(output));
    }

    /** do_float.  Two writes, since the compiler may pad the record. */
    method DoFloat(bits: seq<byte>, row: int, column: int, was: seq<byte>)
      requires Open() && |bits| == 8 && |was| == 8
      modifies this
      ensures Open()
      ensures |output| == |old(output)| + 19 && output[..|old(output)| + 11] == old(output)
          + [3, 0, 15, 0, (row % 0x100) as byte, (row / 0x100 % 0x100) as byte, (column % 0x100) as byte,
             (column / 0x100 % 0x100) as byte, 0, 0, 0]
      ensures var data := output[|old(output)| + 11..];
              && (1 <= Endian(host) <= 3 ==> forall i :: 0 <= i < 8 ==> data[i] == bits[7 - i])
              && (Endian(host) == -1 ==> data == [0, 0, 0, 0, 0, 0, 0, 0])
              && (Endian(host) == 4 ==> data == was)
      ensures 1 <= Endian(host) <= 3 ==> cells == old(cells) + [FloatCell(bits, row, column)]
      ensures Endian(host) == -1 ==> cells == old(cells) + [FloatCell([0, 0, 0, 0, 0, 0, 0, 0], row, column)]
      ensures Endian(host) == 4 ==> cells == old(cells) + [FloatCell(Reversed(was), row, column)]
    {
      hide InMemory, Endian, FloatBytes, FrameBytes, FrameOf, Body;
      var data := FloatBytes(Endian(host), InMemory(host, bits), was);
      var rec := [FLOAT as byte, 0, 15, 0, Low(row), High(row), Low(column), High(column), 0, 0, 0];
      output := output + rec;
      output := output + data;
      ghost var c := FloatCell(Reversed(data), row, column);
      if 1 <= Endian(host) <= 3 {
        ComesOut(host, bits, was);
      }
      ReversedTwice(bits);
      Unsupported(host, bits, was);
      FloatRecord(rec, data, row, column);
      assert output == old(output) + (rec + data);
      assert output[..|old(output)| + 11] == old(output) + rec && output[|old(output)| + 11..] == data;
      Written(c, 0, old(output));
    }

    lemma FloatRecord(rec: seq<byte>, data: seq<byte>, row: int, column: int)
      requires rec == [FLOAT as byte, 0, 15, 0, Low(row), High(row), Low(column), High(column), 0, 0, 0]
      requires |data| == 8
      ensures rec + data == FrameBytes(FrameOf(FloatCell(Reversed(data), row, column), 0))
    {
      assert Reversed(Reversed(data)) == data;
    }

    /** do_label: the whole record, with the string copied over zeros.  The length byte is taken first;
        a string that is too long is then cut, in the caller's memory. */
    method DoLabel(str: array<byte>, ghost len: nat, row: int, column: int, s: byte)
      requires Open() && IsString(str[..], len)
      modifies this, str
      ensures Open() && cells == old(cells) + [LabelCell(old(str[..len]), row, column)]
      ensures |output| == |old(output)| + 268 && output[..|old(output)| + 12] == old(output)
          + [4, 0, 8, 1, (row % 0x100) as byte, (row / 0x100 % 0x100) as byte, (column % 0x100) as byte,
             (column / 0x100 % 0x100) as byte, 0, 0, 0, (len % 0x100) as byte]
      ensures var field, kept := output[|old(output)| + 12..], if len > 255 then 254 else len;
              && field[..kept] == old(str[..kept])
              && (forall k :: kept <= k < 255 ==> field[k] == 0) && field[255] == if kept == 255 then 0 else s
      ensures str[..] == if len > 255 then old(str[..])[254 := 0] else old(str[..])
    {
      hide LabelText, FrameBytes, FrameOf, Body;
      ghost var text := str[..len];
      var i := Strlen(str, len);
      var rec := [LABEL as byte, 0, 8, 1, Low(row), High(row), Low(column), High(column), 0, 0, 0, Low(i)];
      if i > 255 {
        str[254] := 0;
      }
      ghost var kept := if |text| > 255 then text[..254] else text;
      assert IsString(str[..], |kept|) && str[..|kept|] == kept;
      var field := Text(str, |kept|, s);
      TextIs(text, kept, s);
      output := output + (rec + field[..]);
      assert output[..|old(output)| + 12] == old(output) + rec && output[|old(output)| + 12..] == field[..];
      ghost var c := LabelCell(text, row, column);
      LabelRecord(rec, field[..], text, row, column, s);
      Written(c, s, old(output));
    }

    /** A string of `len` characters stands at the start of the memory. */
    ghost predicate IsString(memory: seq<byte>, len: nat) {
      len < |memory| && memory[len] == 0 && forall k :: 0 <= k < len ==> memory[k] != 0
    }

    method Strlen(str: array<byte>, ghost len: nat) returns (n: nat)
      requires IsString(str[..], len)
      ensures n == len
    {
      n := 0;
      while str[n] != 0
        invariant n <= len
        decreases len - n
      {
        n := n + 1;
      }
    }

    /** str_array: zeroed but for its last byte, then strcpy. */
    method Text(str: array<byte>, ghost len: nat, s: byte) returns (field: array<byte>)
      requires IsString(str[..], len) && len <= 255
      ensures fresh(field) && field[..] == Padded(str[..len], s)
    {
      field := new byte[0x100](_ => s);
      var i := 0;
      while i < 255
        invariant i <= 255
        invariant forall k :: 0 <= k < i ==> field[k] == 0
        invariant field[255] == s
      {
        field[i] := 0;
        i := i + 1;
      }
      i := 0;
      while str[i] != 0
        invariant i <= len
        invariant field[..i] == str[..i]
        invariant forall k :: i <= k < 255 ==> field[k] == 0
        invariant field[255] == s
        decreases len - i
      {
        field[i] := str[i];
        i := i + 1;
      }
      field[i] := 0;
    }

    lemma TextIs(text: seq<byte>, kept: seq<byte>, s: byte)
      requires kept == if |text| > 255 then text[..254] else text
      ensures LabelText(text, s) == Padded(kept, s)
    {
    }

    lemma LabelRecord(rec: seq<byte>, str: seq<byte>, text: seq<byte>, row: int, column: int, s: byte)
      requires rec == [LABEL as byte, 0, 8, 1, Low(row), High(row), Low(column), High(column), 0, 0, 0, Low(|text|)]
      requires str == LabelText(text, s)
      ensures rec + str == FrameBytes(FrameOf(LabelCell(text, row, column), s))
    {
    }

    /** do_eof, after which the file can be read back. */
    method Close()
      requires Open()
      modifies this`output
      ensures output == old(output) + [10, 0, 0, 0]
      ensures output == Sheet(cells, stack) && Read(output) == Some(AllStored(cells))
    {
      output := output + [EOF as byte, 0, 0, 0];
      assert FrameBytes(Footer()) == [EOF as byte, 0, 0, 0];
      RoundTrip(cells, stack);
    }
  }
}
