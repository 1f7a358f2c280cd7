/**
 * BinaryFrame.convert from SourceCode/BinaryFrame.py: every column of a table is
 * cut into streams of at least `stream_size` characters, each built by appending
 * the symbols of consecutive rows.
 */
module Frame {
  import opened Strings
  import opened Wrappers
  import opened Symbols

  /**
   * What one `convert` call uses to turn a value into a symbol: the method name,
   * the `convert` flag (scale to basis points first) and the IEEE 754 binary64
   * pattern of a value, which the bitstring library supplies.
   */
  datatype Encoding = Encoding(methodName: string, scale: bool, ieee: real -> string)

  /** The method names `convert` dispatches on. */
  predicate KnownMethod(m: string) {
    m == "discretize" || m == "convert basis point" || m == "convert floating point"
  }

  predicate IsIntegral(x: real) {
    x == x.Floor as real
  }

  /**
   * The symbol of one row, or None where the program stops instead: an unknown
   * method name (the `exit(0)` branch), or an unscaled basis-point conversion of a
   * value that is not an integer (bin() raises on it).
   */
  function Symbol(enc: Encoding, x: real): (r: Option<string>)
    ensures r.None? <==>
      !KnownMethod(enc.methodName) || (enc.methodName == "convert basis point" && !enc.scale && !IsIntegral(x))
    ensures r.Some? ==> 1 <= |r.value|
    ensures r.Some? && enc.methodName == "discretize" ==> |r.value| <= 2
  {
    if enc.methodName == "discretize" then Some(Discretize(x))
    else if enc.methodName == "convert basis point" then
      if enc.scale then Some(ConvertBasisPoint(BasisPoints(x)))
      else if IsIntegral(x) then Some(ConvertBasisPoint(x.Floor))
      else None
    else if enc.methodName == "convert floating point" then Some(ConvertFloatingPoint(x, enc.ieee(x)))
    else None
  }

  /** A per-row encoder: the row's symbol, or None when the program stops on that row. */
  type RowEncoder = real -> Option<string>

  /** Every symbol the encoder gives has at least one character. */
  ghost predicate NonEmptySymbols(sym: RowEncoder) {
    forall x :: sym(x).Some? ==> 1 <= |sym(x).value|
  }

  /** The row encoder a `convert` call dispatches to. */
  function SymbolOf(enc: Encoding): (sym: RowEncoder)
    ensures NonEmptySymbols(sym)
  {
    x => Symbol(enc, x)
  }

  /** NonEmptySymbols at one row value. */
  lemma SymbolNonEmpty(sym: RowEncoder, x: real)
    requires NonEmptySymbols(sym)
    ensures sym(x).Some? ==> 1 <= |sym(x).value|
  {
  }

  /** Every row from `a` up to (not including) `b` has a symbol. */
  predicate Encodable(sym: RowEncoder, col: seq<real>, a: nat, b: nat)
    requires a <= b <= |col|
  {
    forall k :: a <= k < b ==> sym(col[k]).Some?
  }

  /** The symbols of rows `a` up to `b`, concatenated in row order. */
  function Encoded(sym: RowEncoder, col: seq<real>, a: nat, b: nat): (r: string)
    requires NonEmptySymbols(sym)
    requires a <= b <= |col| && Encodable(sym, col, a, b)
    ensures b - a <= |r|
    decreases b - a
  {
    if a == b then []
    else
      SymbolNonEmpty(sym, col[b - 1]);
      Encoded(sym, col, a, b - 1) + sym(col[b - 1]).value
  }

  /** A run of rows split at `m` encodes as the two halves' encodings, one after the other. */
  lemma {:induction false} EncodedSplit(sym: RowEncoder, col: seq<real>, a: nat, m: nat, b: nat)
    requires NonEmptySymbols(sym)
    requires a <= m <= b <= |col| && Encodable(sym, col, a, b)
    ensures Encoded(sym, col, a, b) == Encoded(sym, col, a, m) + Encoded(sym, col, m, b)
    decreases b - m
  {
    var left := Encoded(sym, col, a, m);
    if m < b {
      EncodedSplit(sym, col, a, m, b - 1);
      var symbol := sym(col[b - 1]).value;
      var mid := Encoded(sym, col, m, b - 1);
      assert Encoded(sym, col, a, b) == (left + mid) + symbol;
      assert Encoded(sym, col, m, b) == mid + symbol;
      assert (left + mid) + symbol == left + (mid + symbol);
    } else {
      assert Encoded(sym, col, m, b) == [];
      assert left + [] == left;
    }
  }

  /** The strings of `ss` joined end to end. */
  function Flatten(ss: seq<string>): string {
    if ss == [] then [] else ss[0] + Flatten(ss[1..])
  }

  /**
   * The inner loop of `convert` as a function: starting with `acc` at row `index`
   * of a stream that began at row `start`, append row symbols until `acc` holds at
   * least `size` characters. Gives the stream and the next row, or None when a
   * row's conversion stops the program.
   */
  function FillStream(sym: RowEncoder, col: seq<real>, size: nat, start: nat, index: nat, acc: string): (r: Option<(string, nat)>)
    requires NonEmptySymbols(sym)
    requires start <= index <= |col| && |col| - start > size && index - start <= |acc|
    ensures r.Some? ==> index <= r.value.1 <= |col| && size <= |r.value.0|
    ensures r.Some? && |acc| < size ==> index < r.value.1
    decreases |col| - index
  {
    if |acc| >= size then Some((acc, index))
    else
      var symbol := sym(col[index]);
      SymbolNonEmpty(sym, col[index]);
      if symbol.None? then None
      else FillStream(sym, col, size, start, index + 1, acc + symbol.value)
  }

  /**
   * The outer loop of `convert` as a function: while strictly more than `size` rows
   * remain after `index`, read one more stream. Gives the streams and the index of
   * the first unused row, or None when the program stops.
   */
  function Streams(sym: RowEncoder, col: seq<real>, size: nat, index: nat): (r: Option<(seq<string>, nat)>)
    requires NonEmptySymbols(sym)
    requires size >= 1 && index <= |col|
    ensures r.Some? ==> index <= r.value.1 <= |col|
    decreases |col| - index
  {
    if |col| - index > size then
      match FillStream(sym, col, size, index, index, "")
      case None => None
      case Some((s, next)) =>
        match Streams(sym, col, size, next)
        case None => None
        case Some((rest, last)) => Some(([s] + rest, last))
    else Some(([], index))
  }

  /**
   * `s` is the encoding of rows `a` up to `b` of `col`, and the rows before the
   * last one did not yet reach `size` characters.
   */
  ghost predicate RunUpTo(sym: RowEncoder, col: seq<real>, size: nat, a: nat, b: nat, s: string) {
    NonEmptySymbols(sym) && a <= b <= |col| && Encodable(sym, col, a, b) && s == Encoded(sym, col, a, b) &&
    (a < b ==> |Encoded(sym, col, a, b - 1)| < size)
  }

  /**
   * `s` is the encoding of the shortest run of rows from `a` whose symbols reach
   * `size` characters; it ends before row `b`, takes between 1 and `size` rows.
   */
  ghost predicate ShortestRun(sym: RowEncoder, col: seq<real>, size: nat, a: nat, b: nat, s: string) {
    a < b <= a + size && RunUpTo(sym, col, size, a, b, s) && size <= |s|
  }

  /** The general step behind StreamIsShortestRun: `acc` is the encoding of the rows read so far. */
  lemma {:induction false} FillStreamRun(sym: RowEncoder, col: seq<real>, size: nat, start: nat, index: nat, acc: string)
    requires NonEmptySymbols(sym)
    requires start <= index <= |col| && |col| - start > size && index - start <= |acc|
    requires RunUpTo(sym, col, size, start, index, acc)
    requires FillStream(sym, col, size, start, index, acc).Some?
    ensures RunUpTo(sym, col, size, start, FillStream(sym, col, size, start, index, acc).value.1,
                    FillStream(sym, col, size, start, index, acc).value.0)
    decreases |col| - index
  {
    if |acc| < size {
      var symbol := sym(col[index]).value;
      SymbolNonEmpty(sym, col[index]);
      assert FillStream(sym, col, size, start, index, acc) == FillStream(sym, col, size, start, index + 1, acc + symbol);
      FillStreamRun(sym, col, size, start, index + 1, acc + symbol);
    }
  }

  /**
   * A stream is the shortest run of rows from `start` whose symbols reach `size`
   * characters: it takes between 1 and `size` rows, so the row read never passes
   * the end of the column, and it has fewer than `size` plus the length of its
   * last symbol.
   */
  lemma StreamIsShortestRun(sym: RowEncoder, col: seq<real>, size: nat, start: nat)
    requires NonEmptySymbols(sym)
    requires size >= 1 && |col| - start > size
    requires FillStream(sym, col, size, start, start, "").Some?
    ensures var r := FillStream(sym, col, size, start, start, "").value;
      ShortestRun(sym, col, size, start, r.1, r.0) &&
      |r.0| < size + |sym(col[r.1 - 1]).value|
  {
    FillStreamRun(sym, col, size, start, start, "");
    var r := FillStream(sym, col, size, start, start, "").value;
    LastSymbol(sym, col, size, start, r.1, r.0);
  }

  /** A run that has rows splits into the rows before its last one and the last row's symbol. */
  lemma LastSymbol(sym: RowEncoder, col: seq<real>, size: nat, a: nat, b: nat, s: string)
    requires a < b && RunUpTo(sym, col, size, a, b, s)
    ensures b - a <= size && sym(col[b - 1]).Some?
    ensures |s| < size + |sym(col[b - 1]).value|
  {
    assert b - 1 - a <= |Encoded(sym, col, a, b - 1)| < size;
  }

  /** When a stream cannot be read, the program stops at a row it actually reads. */
  lemma {:induction false} FillStreamStops(sym: RowEncoder, col: seq<real>, size: nat, start: nat, index: nat, acc: string)
    requires NonEmptySymbols(sym)
    requires start <= index <= |col| && |col| - start > size && index - start <= |acc|
    requires FillStream(sym, col, size, start, index, acc).None?
    ensures exists k :: index <= k < |col| && k < start + size && sym(col[k]).None?
    decreases |col| - index
  {
    if sym(col[index]).Some? {
      SymbolNonEmpty(sym, col[index]);
      FillStreamStops(sym, col, size, start, index + 1, acc + sym(col[index]).value);
    }
  }

  /**
   * The streams of a column, joined, are exactly the encoding of the rows from
   * `index` to the first unused row; at most `size` rows are left unused, and
   * every stream has at least `size` characters.
   */
  lemma {:induction false} StreamsCover(sym: RowEncoder, col: seq<real>, size: nat, index: nat)
    requires NonEmptySymbols(sym)
    requires size >= 1 && index <= |col|
    requires Streams(sym, col, size, index).Some?
    ensures var (ss, e) := Streams(sym, col, size, index).value;
      |col| - e <= size && Encodable(sym, col, index, e) && Flatten(ss) == Encoded(sym, col, index, e) &&
      forall i :: 0 <= i < |ss| ==> size <= |ss[i]|
    decreases |col| - index
  {
    var (ss, e) := Streams(sym, col, size, index).value;
    if |col| - index > size {
      var (s, next) := FillStream(sym, col, size, index, index, "").value;
      StreamIsShortestRun(sym, col, size, index);
      StreamsCover(sym, col, size, next);
      var (rest, last) := Streams(sym, col, size, next).value;
      EncodedSplit(sym, col, index, next, last);
      assert ss == [s] + rest && e == last;
      assert ss[1..] == rest;
      forall i | 0 <= i < |ss| ensures size <= |ss[i]| {
        if i > 0 { assert ss[i] == rest[i - 1]; }
      }
    }
  }

  /** `cuts` splits rows `cuts[0]` to `cuts[|ss|]` into the shortest runs whose encodings are `ss`, in order. */
  ghost predicate CutInto(sym: RowEncoder, col: seq<real>, size: nat, ss: seq<string>, cuts: seq<nat>) {
    |cuts| == |ss| + 1 &&
    forall i :: 0 <= i < |ss| ==> ShortestRun(sym, col, size, cuts[i], cuts[i + 1], ss[i])
  }

  /**
   * The streams come from consecutive, non-overlapping runs of rows: there are
   * cut points from `index` to the first unused row such that stream i is the
   * shortest run of rows between cut i and cut i+1.
   */
  lemma {:induction false} StreamsAreConsecutiveRuns(sym: RowEncoder, col: seq<real>, size: nat, index: nat)
    requires NonEmptySymbols(sym)
    requires size >= 1 && index <= |col|
    requires Streams(sym, col, size, index).Some?
    ensures var r := Streams(sym, col, size, index).value;
      exists cuts :: CutInto(sym, col, size, r.0, cuts) && cuts[0] == index && cuts[|r.0|] == r.1
    decreases |col| - index
  {
    var r := Streams(sym, col, size, index).value;
    if |col| - index > size {
      var (s, next) := FillStream(sym, col, size, index, index, "").value;
      StreamIsShortestRun(sym, col, size, index);
      StreamsAreConsecutiveRuns(sym, col, size, next);
      var (rest, last) := Streams(sym, col, size, next).value;
      assert r.0 == [s] + rest && r.1 == last;
      var tail :| CutInto(sym, col, size, rest, tail) && tail[0] == next && tail[|rest|] == last;
      CutIntoCons(sym, col, size, s, rest, index, tail);
      assert ([index] + tail)[|r.0|] == last;
    } else {
      assert CutInto(sym, col, size, r.0, [index]);
    }
  }

  /** A shortest run followed by a cut sequence that starts where it ends is a cut sequence. */
  lemma CutIntoCons(sym: RowEncoder, col: seq<real>, size: nat, s: string, rest: seq<string>, a: nat, tail: seq<nat>)
    requires CutInto(sym, col, size, rest, tail) && ShortestRun(sym, col, size, a, tail[0], s)
    ensures CutInto(sym, col, size, [s] + rest, [a] + tail)
  {
    var ss, cuts := [s] + rest, [a] + tail;
    forall i | 0 <= i < |ss| ensures ShortestRun(sym, col, size, cuts[i], cuts[i + 1], ss[i]) {
      if i > 0 {
        assert cuts[i] == tail[i - 1] && cuts[i + 1] == tail[i] && ss[i] == rest[i - 1];
      }
    }
  }

  /** When no symbol is longer than `width`, every stream is shorter than `size` + `width`. */
  lemma {:induction false} BoundedSymbolStreams(sym: RowEncoder, col: seq<real>, size: nat, index: nat, width: nat)
    requires NonEmptySymbols(sym)
    requires forall x :: sym(x).Some? ==> |sym(x).value| <= width
    requires size >= 1 && index <= |col|
    requires Streams(sym, col, size, index).Some?
    ensures var ss := Streams(sym, col, size, index).value.0;
      forall i :: 0 <= i < |ss| ==> size <= |ss[i]| < size + width
    decreases |col| - index
  {
    if |col| - index > size {
      var (s, next) := FillStream(sym, col, size, index, index, "").value;
      StreamIsShortestRun(sym, col, size, index);
      BoundedSymbolStreams(sym, col, size, next, width);
      var rest := Streams(sym, col, size, next).value.0;
      var ss := Streams(sym, col, size, index).value.0;
      assert ss == [s] + rest;
      forall i | 0 <= i < |ss| ensures size <= |ss[i]| < size + width {
        if i > 0 { assert ss[i] == rest[i - 1]; }
      }
    }
  }

  /** Under "discretize" every symbol has one or two characters, so every stream has `size` or `size`+1. */
  lemma DiscretizeStreamLengths(col: seq<real>, size: nat, scale: bool, ieee: real -> string)
    requires size >= 1
    ensures var sym := SymbolOf(Encoding("discretize", scale, ieee));
      Streams(sym, col, size, 0).Some? &&
      forall i :: 0 <= i < |Streams(sym, col, size, 0).value.0| ==>
        size <= |Streams(sym, col, size, 0).value.0[i]| <= size + 1
  {
    var sym := SymbolOf(Encoding("discretize", scale, ieee));
    StreamsTotal(sym, col, size, 0);
    BoundedSymbolStreams(sym, col, size, 0, 2);
  }

  /**
   * With an unknown method name the program stops exactly when it tries to read a
   * stream, that is when strictly more than `size` rows remain.
   */
  lemma UnknownMethodStops(enc: Encoding, col: seq<real>, size: nat, index: nat)
    requires !KnownMethod(enc.methodName)
    requires size >= 1 && index <= |col|
    ensures Streams(SymbolOf(enc), col, size, index).None? <==> |col| - index > size
  {
  }

  /** When every remaining row has a symbol, reading a stream never stops the program. */
  lemma {:induction false} FillStreamTotal(sym: RowEncoder, col: seq<real>, size: nat, start: nat, index: nat, acc: string)
    requires NonEmptySymbols(sym)
    requires start <= index <= |col| && |col| - start > size && index - start <= |acc|
    requires forall k :: index <= k < |col| ==> sym(col[k]).Some?
    ensures FillStream(sym, col, size, start, index, acc).Some?
    decreases |col| - index
  {
    if |acc| < size {
      SymbolNonEmpty(sym, col[index]);
      FillStreamTotal(sym, col, size, start, index + 1, acc + sym(col[index]).value);
    }
  }

  /** When every remaining row has a symbol, the column is converted without stopping. */
  lemma {:induction false} StreamsTotal(sym: RowEncoder, col: seq<real>, size: nat, index: nat)
    requires NonEmptySymbols(sym)
    requires size >= 1 && index <= |col|
    requires forall k :: index <= k < |col| ==> sym(col[k]).Some?
    ensures Streams(sym, col, size, index).Some?
    decreases |col| - index
  {
    if |col| - index > size {
      FillStreamTotal(sym, col, size, index, index, "");
      var next := FillStream(sym, col, size, index, index, "").value.1;
      StreamsTotal(sym, col, size, next);
    }
  }

  /** Prepends the streams already read to the outcome of reading the rest. */
  function Prepend(done: seq<string>, r: Option<(seq<string>, nat)>): Option<(seq<string>, nat)> {
    match r
    case None => None
    case Some((rest, last)) => Some((done + rest, last))
  }

  /** Prepending in two steps is prepending the joined prefix. */
  lemma PrependTwice(done: seq<string>, s: string, r: Option<(seq<string>, nat)>)
    ensures Prepend(done, Prepend([s], r)) == Prepend(done + [s], r)
  {
    if r.Some? {
      assert done + ([s] + r.value.0) == (done + [s]) + r.value.0;
    }
  }

  /**
   * One column of `convert`: the two nested loops, with `index` the next row to
   * read. `ok` is false when a row's conversion stops the program; `index` is then
   * that row.
   */
  method ConvertColumn(sym: RowEncoder, col: seq<real>, size: nat) returns (ok: bool, streams: seq<string>, index: nat)
    requires NonEmptySymbols(sym)
    requires size >= 1
    ensures index <= |col|
    ensures ok <==> Streams(sym, col, size, 0).Some?
    ensures ok ==> Streams(sym, col, size, 0) == Some((streams, index))
    ensures !ok ==> index < |col| && sym(col[index]).None?
  {
    streams, index := [], 0;
    match Streams(sym, col, size, 0) {
      case None =>
      case Some((all, last)) => assert [] + all == all;
    }
    while |col| - index > size
      invariant index <= |col|
      invariant Streams(sym, col, size, 0) == Prepend(streams, Streams(sym, col, size, index))
      decreases |col| - index
    {
      var bstring := "";
      ghost var start := index;
      while |bstring| < size
        invariant start <= index <= |col| && |col| - start > size && index - start <= |bstring|
        invariant FillStream(sym, col, size, start, start, "") == FillStream(sym, col, size, start, index, bstring)
        decreases |col| - index
      {
        var bit := sym(col[index]);
        if bit.None? {
          return false, streams, index;
        }
        SymbolNonEmpty(sym, col[index]);
        index := index + 1;
        bstring := bstring + bit.value;
      }
      assert Streams(sym, col, size, start) == Prepend([bstring], Streams(sym, col, size, index));
      PrependTwice(streams, bstring, Streams(sym, col, size, index));
      streams := streams + [bstring];
    }
    assert streams + [] == streams;
    ok := true;
  }

  /**
   * The column loop of `convert`: converts every column in order into `binData`.
   * `exited` says the program stopped, which it does exactly when some column's
   * conversion stops. Otherwise every column's entry is replaced by its streams
   * and every other entry is kept.
   */
  method ConvertColumns(sym: RowEncoder, columns: seq<string>, data: map<string, seq<real>>, size: nat,
                        binData: map<string, seq<string>>) returns (exited: bool, result: map<string, seq<string>>)
    requires NonEmptySymbols(sym)
    requires size >= 1
    requires forall c :: c in columns ==> c in data
    ensures exited <==> exists k :: 0 <= k < |columns| && Streams(sym, data[columns[k]], size, 0).None?
    ensures !exited ==> forall c :: c in result <==> c in binData || c in columns
    ensures !exited ==> forall c :: c in columns ==>
      Streams(sym, data[c], size, 0).Some? && result[c] == Streams(sym, data[c], size, 0).value.0
    ensures !exited ==> forall c :: c in binData && c !in columns ==> result[c] == binData[c]
  {
    result := binData;
    var j := 0;
    while j < |columns|
      invariant 0 <= j <= |columns|
      invariant forall k :: 0 <= k < j ==> Streams(sym, data[columns[k]], size, 0).Some?
      invariant forall c :: c in result <==> c in binData || c in columns[..j]
      invariant forall k :: 0 <= k < j ==> result[columns[k]] == Streams(sym, data[columns[k]], size, 0).value.0
      invariant forall c :: c in binData && c !in columns ==> result[c] == binData[c]
    {
      var ok, cbin, _ := ConvertColumn(sym, data[columns[j]], size);
      if !ok {
        return true, result;
      }
      result := result[columns[j] := cbin];
      assert columns[..j + 1] == columns[..j] + [columns[j]];
      j := j + 1;
    }
    assert columns[..j] == columns;
    exited := false;
  }

  /** A BinaryFrame: a table of columns, the stream size, and the streams of each converted column. */
  class BinaryFrame {
    const columns: seq<string>
    const data: map<string, seq<real>>
    const streamSize: int
    var binData: map<string, seq<string>>
    var methodName: string

    /** `__init__`: nothing converted yet, method "discretize". */
    constructor (columns: seq<string>, data: map<string, seq<real>>, streamSize: int)
      requires forall c :: c in columns ==> c in data
      ensures this.columns == columns && this.data == data && this.streamSize == streamSize
      ensures binData == map[] && methodName == "discretize"
    {
      this.columns := columns;
      this.data := data;
      this.streamSize := streamSize;
      binData := map[];
      methodName := "discretize";
    }

    /**
     * `convert`: records the method, then converts every column in order. `exited`
     * says the program stopped (unknown method, or bin() of a non-integer); it does
     * so exactly when some column's conversion stops. Otherwise every column's
     * entry is replaced by its streams and every other entry is kept.
     */
    method Convert(ieee: real -> string, m: string := "discretize", scale: bool := true) returns (exited: bool)
      requires streamSize >= 1
      requires forall c :: c in columns ==> c in data
      modifies this
      ensures methodName == m
      ensures exited <==> exists k :: 0 <= k < |columns| && Streams(SymbolOf(Encoding(m, scale, ieee)), data[columns[k]], streamSize, 0).None?
      ensures !exited ==> forall c :: c in binData <==> c in old(binData) || c in columns
      ensures !exited ==> forall c :: c in columns ==>
        Streams(SymbolOf(Encoding(m, scale, ieee)), data[c], streamSize, 0).Some? &&
        binData[c] == Streams(SymbolOf(Encoding(m, scale, ieee)), data[c], streamSize, 0).value.0
      ensures !exited ==> forall c :: c in old(binData) && c !in columns ==> binData[c] == old(binData)[c]
    {
      methodName := m;
      exited, binData := ConvertColumns(SymbolOf(Encoding(m, scale, ieee)), columns, data, streamSize, binData);
    }
  }
}
