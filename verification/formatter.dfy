/**
  `format_bytes`: every byte becomes two lowercase hexadecimal characters, the
  sequence is padded with `"00"` up to a multiple of the line width `n`, cut
  into consecutive groups of `n`, and each group is written last byte first.
 */
module Formatter {
  import opened Wrappers
  import opened Hex

  lemma Distribute(a: int, b: int, n: int)
    ensures (a + b) * n == a * n + b * n
  {
  }

  lemma MulMonotone(a: int, b: int, n: nat)
    requires a <= b
    ensures a * n <= b * n
  {
    Distribute(a, b - a, n);
  }

  /** Euclidean division and remainder of a natural number by a positive one. */
  lemma DivMod(x: nat, n: nat)
    requires n > 0
    ensures x == (x / n) * n + x % n
    ensures 0 <= x % n < n
  {
  }

  /** Division is determined by any decomposition `x == q * n + r` with `0 <= r < n`. */
  lemma DivModUnique(x: nat, n: nat, q: int, r: int)
    requires n > 0 && 0 <= r < n && x == q * n + r
    ensures x / n == q && x % n == r
  {
    DivMod(x, n);
    if q < x / n {
      MulMonotone(q + 1, x / n, n);
      Distribute(q, 1, n);
    } else if q > x / n {
      MulMonotone(x / n + 1, q, n);
      Distribute(x / n, 1, n);
    }
  }

  /** The number of lines for `count` bytes: the smallest `q` with `q * n >= count`. */
  function CeilDiv(count: nat, n: nat): (q: nat)
    requires n > 0
    ensures q * n >= count
    ensures q > 0 ==> (q - 1) * n < count
  {
    DivMod(count, n);
    var d := count / n;
    if count % n == 0 then
      Distribute(d - 1, 1, n);
      d
    else
      Distribute(d, 1, n);
      d + 1
  }

  /** How many `"00"` entries complete the last line: none when `n` divides `count`. */
  function Padding(count: nat, n: nat): (p: nat)
    requires n > 0
    ensures p < n
    ensures count + p == CeilDiv(count, n) * n
    ensures p == 0 <==> count % n == 0
  {
    DivMod(count, n);
    var r := count % n;
    if r == 0 then
      assert (n - r) % n == 0 by { DivModUnique(n, n, 1, 0); }
      (n - r) % n
    else
      Distribute(count / n, 1, n);
      assert (n - r) % n == n - r by { DivModUnique(n - r, n, 0, n - r); }
      (n - r) % n
  }

  /** The byte sequence the lines actually show: the input followed by the padding zeros. */
  function Padded(all: seq<byte>, n: nat): seq<byte>
    requires n > 0
  {
    all + seq(Padding(|all|, n), _ => 0)
  }

  /** The two-character rendering of every byte, in input order. */
  function HexStrings(all: seq<byte>): (hs: seq<string>)
    ensures |hs| == |all| && AllHexPairs(hs)
  {
    seq(|all|, i requires 0 <= i < |all| => ByteToHex(all[i]))
  }

  /** Entry `i` of the rendered bytes reads back as byte `i`: no byte is lost or changed. */
  lemma HexStringsReadBack(all: seq<byte>, i: nat)
    requires i < |all|
    ensures HexToByte(HexStrings(all)[i]) == Some(all[i])
  {
    ByteHexRoundTrip(all[i]);
  }

  /**
    The rendered bytes once the `"00"` padding has been appended: since `"00"`
    renders a zero byte, they are the renderings of the padded bytes, and
    there are exactly as many as the lines take.
   */
  function PaddedHex(all: seq<byte>, n: nat): (hex: seq<string>)
    requires n > 0
    ensures hex == HexStrings(Padded(all, n))
    ensures |hex| == CeilDiv(|all|, n) * n
  {
    ByteToHexExamples();
    HexStrings(all) + seq(Padding(|all|, n), _ => "00")
  }

  /** Every entry is the two-character rendering of some byte. */
  predicate AllHexPairs(xs: seq<string>) {
    forall k :: 0 <= k < |xs| ==> IsHexPair(xs[k])
  }

  /** The pieces concatenated in order; two-character hexadecimal pieces give a hexadecimal string twice as long. */
  function Join(xs: seq<string>): (s: string)
    ensures AllHexPairs(xs) ==> |s| == 2 * |xs| && IsHexString(s)
  {
    if |xs| == 0 then "" else
      var rest := Join(xs[1..]);
      assert AllHexPairs(xs) ==> AllHexPairs(xs[1..]);
      xs[0] + rest
  }

  /** One output line: the `n` entries of `hex` from index `i`, joined last to first. */
  function Line(hex: seq<string>, i: nat, n: nat): (s: string)
    requires i + n <= |hex|
    ensures AllHexPairs(hex) ==> |s| == 2 * n && IsHexString(s)
  {
    var group := seq(n, j requires 0 <= j < n => hex[i + n - j - 1]);
    assert AllHexPairs(hex) ==> AllHexPairs(group);
    Join(group)
  }

  /** The `k`-th run of `n` consecutive entries of `p`. */
  function Group<T>(p: seq<T>, n: nat, k: nat): (g: seq<T>)
    requires k * n + n <= |p|
    ensures |g| == n
  {
    p[k * n..k * n + n]
  }

  /** Entry `i` of group `k` is entry `k * n + i` of the whole. */
  lemma GroupAt<T>(p: seq<T>, n: nat, k: nat, i: nat)
    requires k * n + n <= |p| && i < n
    ensures k * n + i < |p| && Group(p, n, k)[i] == p[k * n + i]
  {
  }

  lemma {:induction false} GroupInRange(k: nat, m: nat, n: nat)
    requires k < m
    ensures k * n + n <= m * n
  {
    MulMonotone(k + 1, m, n);
    Distribute(k, 1, n);
  }

  /** The lines `format_bytes` returns for the bytes `all` and the line width `n`. */
  function FormatBytes(all: seq<byte>, n: nat): (lines: seq<string>)
    requires n > 0
    ensures |lines| == CeilDiv(|all|, n)
    ensures |all| == 0 ==> lines == []
    ensures forall k :: 0 <= k < |lines| ==> |lines[k]| == 2 * n && IsHexString(lines[k])
  {
    var hex := PaddedHex(all, n);
    var m := CeilDiv(|all|, n);
    assert |hex| == m * n;
    assert AllHexPairs(hex);
    assert |all| == 0 ==> m == 0 by {
      if |all| == 0 && m > 0 { MulMonotone(0, m - 1, n); }
    }
    seq(m, k requires 0 <= k < m => GroupInRange(k, m, n); Line(hex, k * n, n))
  }

  /**
    The loop of `format_bytes` as written: `i` walks `range(0, len(hex_strings), n)`
    and each step appends the line for the group starting at `i`.
   */
  method FormatBytesLoop(all: seq<byte>, n: nat) returns (results: seq<string>)
    requires n > 0
    ensures results == FormatBytes(all, n)
  {
    var hex := PaddedHex(all, n);
    ghost var lines := FormatBytes(all, n);
    ghost var m := |lines|;
    assert |hex| == m * n;
    results := [];
    var i := 0;
    while i < |hex|
      invariant |results| <= m
      invariant i == |results| * n
      invariant results == lines[..|results|]
      decreases |hex| - i
    {
      assert |results| < m;
      GroupInRange(|results|, m, n);
      assert lines[|results|] == Line(hex, i, n);
      results := results + [Line(hex, i, n)];
      Distribute(|results| - 1, 1, n);
      i := i + n;
    }
    if |results| < m {
      GroupInRange(|results|, m, n);
    }
    assert results == lines[..m];
  }

  /** Character pair `j` of a line: the rendering in position `j`. */
  function PairAt(s: string, j: nat): string
    requires 2 * j + 2 <= |s|
  {
    s[2 * j..2 * j + 2]
  }

  /**
    The line a group of bytes should become: its bytes from last to first, each
    as two hexadecimal characters. Defined independently of the slicing in `Line`.
   */
  function RenderGroup(g: seq<byte>): (s: string)
    ensures |s| == 2 * |g| && IsHexString(s)
    ensures forall j {:trigger PairAt(s, j)} :: 0 <= j < |g| ==> PairAt(s, j) == ByteToHex(g[|g| - 1 - j])
  {
    if |g| == 0 then "" else
      var init := g[..|g| - 1];
      var rest := RenderGroup(init);
      var s := ByteToHex(g[|g| - 1]) + rest;
      assert forall j :: 1 <= j < |g| ==> PairAt(s, j) == PairAt(rest, j - 1);
      s
  }

  /** The joined renderings of a group's bytes, last byte first. */
  function ReversedRenderings(g: seq<byte>): seq<string> {
    seq(|g|, j requires 0 <= j < |g| => ByteToHex(g[|g| - 1 - j]))
  }

  lemma ReversedRenderingsStep(g: seq<byte>)
    requires |g| > 0
    ensures Join(ReversedRenderings(g)) == ByteToHex(g[|g| - 1]) + Join(ReversedRenderings(g[..|g| - 1]))
  {
    var xs := ReversedRenderings(g);
    assert xs[1..] == ReversedRenderings(g[..|g| - 1]);
  }

  lemma RenderGroupPair(g: seq<byte>, j: nat)
    requires j < |g|
    ensures PairAt(RenderGroup(g), j) == ByteToHex(g[|g| - 1 - j])
  {
  }

  /** Joining the renderings of a group's bytes taken last to first gives `RenderGroup`. */
  lemma {:induction false} JoinReversed(g: seq<byte>)
    ensures Join(ReversedRenderings(g)) == RenderGroup(g)
  {
    if |g| > 0 {
      ReversedRenderingsStep(g);
      JoinReversed(g[..|g| - 1]);
    }
  }

  /** The code's slice-and-reverse over rendered bytes agrees with `RenderGroup`. */
  lemma LineRendersGroup(p: seq<byte>, i: nat, n: nat)
    requires i + n <= |p|
    ensures Line(HexStrings(p), i, n) == RenderGroup(p[i..i + n])
  {
    var hex := HexStrings(p);
    var g := p[i..i + n];
    assert seq(n, j requires 0 <= j < n => hex[i + n - j - 1]) == ReversedRenderings(g);
    JoinReversed(g);
  }

  /** Line `k` of the output is the rendering of the `k`-th group of `n` padded bytes. */
  lemma FormatBytesGroups(all: seq<byte>, n: nat, k: nat)
    requires n > 0
    requires k < |FormatBytes(all, n)|
    ensures k * n + n <= |Padded(all, n)|
    ensures FormatBytes(all, n)[k] == RenderGroup(Group(Padded(all, n), n, k))
  {
    var p, hex := Padded(all, n), PaddedHex(all, n);
    GroupInRange(k, CeilDiv(|all|, n), n);
    assert FormatBytes(all, n)[k] == Line(hex, k * n, n);
    assert hex == HexStrings(p);
    LineRendersGroup(p, k * n, n);
    assert Group(p, n, k) == p[k * n..k * n + n];
  }

  /** Character pair `j` of line `k` renders byte `n - 1 - j` of group `k`. */
  lemma GroupLinePair(all: seq<byte>, n: nat, k: nat, j: nat)
    requires n > 0
    requires k < |FormatBytes(all, n)| && j < n
    ensures k * n + n <= |Padded(all, n)|
    ensures PairAt(FormatBytes(all, n)[k], j) == ByteToHex(Group(Padded(all, n), n, k)[n - 1 - j])
  {
    FormatBytesGroups(all, n, k);
    var g := Group(Padded(all, n), n, k);
    var line := FormatBytes(all, n)[k];
    assert line == RenderGroup(g);
    RenderGroupPair(g, j);
    assert PairAt(line, j) == ByteToHex(g[n - 1 - j]);
  }

  /**
    The exact index mapping: character pair `j` of line `k` renders padded byte
    `k * n + (n - 1 - j)`, so lines keep the group order and each group is reversed.
   */
  lemma {:induction false} FormatIndexMapping(all: seq<byte>, n: nat, k: nat, j: nat)
    requires n > 0
    requires k < |FormatBytes(all, n)| && j < n
    ensures k * n + (n - 1 - j) < |Padded(all, n)|
    ensures PairAt(FormatBytes(all, n)[k], j) == ByteToHex(Padded(all, n)[k * n + (n - 1 - j)])
  {
    var p := Padded(all, n);
    GroupLinePair(all, n, k, j);
    GroupAt(p, n, k, n - 1 - j);
  }

  /** Padding adds fewer than `n` zero bytes, only after the real ones. */
  lemma PaddedShape(all: seq<byte>, n: nat)
    requires n > 0
    ensures |Padded(all, n)| == |all| + Padding(|all|, n) == |FormatBytes(all, n)| * n
    ensures Padded(all, n)[..|all|] == all
    ensures forall i :: |all| <= i < |Padded(all, n)| ==> Padded(all, n)[i] == 0
  {
  }

  /**
    Reads a line back: consecutive character pairs, the first pair being the
    last byte of the group. Fails on anything that is not a rendering.
   */
  function DecodeLine(line: string): (r: Option<seq<byte>>)
    ensures r.Some? ==> RenderGroup(r.value) == line
  {
    if |line| == 0 then Some([])
    else if |line| < 2 then None
    else match HexToByte(line[..2])
      case None => None
      case Some(b) =>
        match DecodeLine(line[2..])
        case None => None
        case Some(rest) =>
          var g := rest + [b];
          assert g[..|g| - 1] == rest;
          Some(g)
  }

  /** Every group is read back from its rendering. */
  lemma {:induction false} DecodeRenderGroup(g: seq<byte>)
    ensures DecodeLine(RenderGroup(g)) == Some(g)
  {
    if |g| > 0 {
      var init, last := g[..|g| - 1], g[|g| - 1];
      assert init + [last] == g;
      var head, rest := ByteToHex(last), RenderGroup(init);
      var s := RenderGroup(g);
      assert s == head + rest;
      assert s[..2] == head && s[2..] == rest;
      ByteHexRoundTrip(last);
      DecodeRenderGroup(init);
      assert DecodeLine(s) == Some(init + [last]);
    }
  }

  /** `DecodeLine` and `RenderGroup` are inverse: a line decodes to `g` exactly when it renders `g`. */
  lemma DecodeLineIff(line: string, g: seq<byte>)
    ensures DecodeLine(line) == Some(g) <==> RenderGroup(g) == line
  {
    if RenderGroup(g) == line {
      DecodeRenderGroup(g);
    }
  }

  /** Undoes `format_bytes`: decodes every line and concatenates the groups in order. */
  function Unformat(lines: seq<string>): Option<seq<byte>> {
    if |lines| == 0 then Some([])
    else match DecodeLine(lines[0])
      case None => None
      case Some(g) =>
        match Unformat(lines[1..])
        case None => None
        case Some(rest) => Some(g + rest)
  }

  /** Group `k` after dropping the first group is group `k + 1` of the whole. */
  lemma GroupShift(p: seq<byte>, n: nat, k: nat)
    requires (k + 1) * n + n <= |p|
    ensures k * n + n <= |p[n..]|
    ensures Group(p[n..], n, k) == Group(p, n, k + 1)
  {
    Distribute(k, 1, n);
  }

  /** Lines render consecutive groups of `n` bytes of `p`, first group first. */
  ghost predicate RendersGroups(p: seq<byte>, n: nat, lines: seq<string>) {
    && n > 0
    && |p| == |lines| * n
    && forall k :: 0 <= k < |lines| ==> k * n + n <= |p| && lines[k] == RenderGroup(Group(p, n, k))
  }

  lemma {:induction false} RendersGroupsTailLine(p: seq<byte>, n: nat, lines: seq<string>, k: nat)
    requires RendersGroups(p, n, lines) && k + 1 < |lines|
    ensures k * n + n <= |p[n..]| && lines[1..][k] == RenderGroup(Group(p[n..], n, k))
  {
    GroupInRange(k + 1, |lines|, n);
    GroupShift(p, n, k);
    assert lines[1..][k] == lines[k + 1];
  }

  /** Dropping the first line and the first group keeps `RendersGroups`. */
  lemma {:induction false} RendersGroupsTail(p: seq<byte>, n: nat, lines: seq<string>)
    requires RendersGroups(p, n, lines) && |lines| > 0
    ensures RendersGroups(p[n..], n, lines[1..])
  {
    assert |p[n..]| == |lines[1..]| * n by { Distribute(|lines| - 1, 1, n); }
    forall k | 0 <= k < |lines| - 1
      ensures k * n + n <= |p[n..]| && lines[1..][k] == RenderGroup(Group(p[n..], n, k))
    {
      RendersGroupsTailLine(p, n, lines, k);
    }
  }

  /** Lines that render consecutive groups of `n` bytes of `p` read back as `p`. */
  lemma {:induction false} UnformatGroups(p: seq<byte>, n: nat, lines: seq<string>)
    requires RendersGroups(p, n, lines)
    ensures Unformat(lines) == Some(p)
  {
    if |lines| > 0 {
      var head, tail := p[..n], p[n..];
      assert p == head + tail;
      assert lines[0] == RenderGroup(head) by { assert 0 * n == 0; }
      DecodeRenderGroup(head);
      RendersGroupsTail(p, n, lines);
      UnformatGroups(tail, n, lines[1..]);
      assert Unformat(lines) == Some(head + tail);
    }
  }

  /** Round trip: reading the lines back gives the input followed by the padding zeros. */
  lemma {:induction false} RoundTrip(all: seq<byte>, n: nat)
    requires n > 0
    ensures Unformat(FormatBytes(all, n)) == Some(Padded(all, n))
  {
    var lines := FormatBytes(all, n);
    PaddedShape(all, n);
    forall k | 0 <= k < |lines|
      ensures k * n + n <= |Padded(all, n)| && lines[k] == RenderGroup(Group(Padded(all, n), n, k))
    {
      FormatBytesGroups(all, n, k);
    }
    UnformatGroups(Padded(all, n), n, lines);
  }

  /** Dropping the final `Padding` bytes of the read-back sequence recovers the input exactly. */
  lemma RecoverInput(all: seq<byte>, n: nat)
    requires n > 0
    ensures Unformat(FormatBytes(all, n)).Some?
    ensures var p := Unformat(FormatBytes(all, n)).value;
      |p| == |all| + Padding(|all|, n) && p[..|p| - Padding(|all|, n)] == all
  {
    RoundTrip(all, n);
    PaddedShape(all, n);
  }

  /** A line width larger than the input gives exactly one line, padded to the full width. */
  lemma {:induction false} WideLineSingle(all: seq<byte>, n: nat)
    requires 0 < |all| <= n
    ensures |FormatBytes(all, n)| == 1
    ensures Padding(|all|, n) == n - |all|
  {
    var q := CeilDiv(|all|, n);
    if q >= 2 {
      MulMonotone(1, q - 1, n);
    }
  }

  /** A two-byte group is written second byte first. */
  lemma RenderPair(a: byte, b: byte)
    ensures RenderGroup([a, b]) == ByteToHex(b) + ByteToHex(a)
  {
    assert [a, b][..1] == [a];
    assert [a][..0] == [];
  }

  /** The first example of the documentation of `format_bytes`: whole groups, no padding. */
  lemma FormatBytesExampleFull()
    ensures FormatBytes([1, 2, 3, 4], 2) == ["0201", "0403"]
  {
    var all: seq<byte> := [1, 2, 3, 4];
    var lines := FormatBytes(all, 2);
    assert |lines| == 2;
    assert Padded(all, 2) == all;
    FormatBytesGroups(all, 2, 0);
    assert Group(all, 2, 0) == [1, 2];
    RenderPair(1, 2);
    FormatBytesGroups(all, 2, 1);
    assert Group(all, 2, 1) == [3, 4];
    RenderPair(3, 4);
    assert ByteToHex(1) == "01" && ByteToHex(2) == "02" && ByteToHex(3) == "03" && ByteToHex(4) == "04";
    assert lines[0] == "0201" && lines[1] == "0403";
  }

  /**
    The second example: the last group is completed with one zero byte, and
    since the padded group is reversed as a whole the zero comes first. The
    documentation of `format_bytes` gives `"0300"` for this line; the code
    yields `"0003"`.
   */
  lemma FormatBytesExamplePadded()
    ensures FormatBytes([1, 2, 3], 2) == ["0201", "0003"]
    ensures FormatBytes([1, 2, 3], 2) != ["0201", "0300"]
  {
    var all: seq<byte> := [1, 2, 3];
    var lines := FormatBytes(all, 2);
    assert |lines| == 2;
    var p := Padded(all, 2);
    assert p == [1, 2, 3, 0];
    FormatBytesGroups(all, 2, 0);
    assert Group(p, 2, 0) == [1, 2];
    RenderPair(1, 2);
    FormatBytesGroups(all, 2, 1);
    assert p[2] == 3 && p[3] == 0;
    assert p[2..4] == [3, 0];
    assert Group(p, 2, 1) == [3, 0];
    RenderPair(3, 0);
    assert ByteToHex(0) == "00" && ByteToHex(1) == "01" && ByteToHex(2) == "02" && ByteToHex(3) == "03";
    assert lines[0] == "0201" && lines[1] == "0003";
  }

  /** Empty input gives no lines at all, whatever the width. */
  lemma FormatBytesExampleEmpty()
    ensures FormatBytes([], 4) == []
  {
  }
}
