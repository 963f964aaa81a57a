/** Decoding the body of a read or write request: the file name, the
    transfer mode, and the option name/value pairs of RFC 2347, of which only
    the `blksize` option of RFC 2348 has an effect. */
module Options {
  import opened Base
  import Numerals

  /** The block size before any option is seen: "not negotiated". */
  const Unset: int := -1

  /** The name of the block-size option. */
  const BlksizeName: seq<byte> := Ascii("blksize")

  /** The option name is a C string: it holds no NUL. */
  lemma BlksizeNameHasNoNul()
    ensures 0 !in BlksizeName
  {
    assert BlksizeName == [98, 108, 107, 115, 105, 122, 101];
  }

  /** A decoded request. `blockSize` is `Unset` unless a `blksize` option
      with a readable value was present. */
  datatype Request = Request(filename: seq<byte>, mode: seq<byte>, blockSize: int)

  /** One option: its name and its value. */
  type Pair = (seq<byte>, seq<byte>)

  /** The options in `area`, read the way the server walks them: a name,
      then a value, each ending at its NUL or at the end of the datagram,
      until the walk reaches the end. */
  function Pairs(area: seq<byte>): seq<Pair>
    decreases |area|
  {
    if area == [] then [] else [Head(area)] + Pairs(From(area, Skip(area)))
  }

  /** The option at the start of `area`. */
  function Head(area: seq<byte>): Pair
  {
    var name := CString(area);
    (name, StringAt(area, |name| + 1))
  }

  /** How far the walk moves past the option at the start of `area`. */
  function Skip(area: seq<byte>): (n: nat)
    ensures 0 < n
  {
    |Head(area).0| + 1 + |Head(area).1| + 1
  }

  /** The bytes of `area` from offset `at` on; none once `at` is past the end. */
  function From(area: seq<byte>, at: nat): (r: seq<byte>)
    ensures |r| <= |area| && (area != [] && 0 < at ==> |r| < |area|)
  {
    if at < |area| then area[at..] else []
  }

  /** The effect of one option on the block size: a `blksize` whose value
      scans as an integer sets it; anything else leaves it alone. */
  function Apply(blockSize: int, option: Pair): (r: int)
    ensures option.0 != BlksizeName ==> r == blockSize
    ensures Numerals.ScanInt(option.1).None? ==> r == blockSize
    ensures r != blockSize ==> option.0 == BlksizeName && Numerals.ScanInt(option.1) == Some(r)
    ensures option.0 == BlksizeName && Numerals.ScanInt(option.1).Some? ==> r == Numerals.ScanInt(option.1).value
  {
    if option.0 == BlksizeName then
      match Numerals.ScanInt(option.1)
      case Some(v) => v
      case None => blockSize
    else
      blockSize
  }

  /** A `blksize` option carrying a number as a client prints it selects
      that number, whatever was selected before. */
  lemma ApplyFormatted(blockSize: int, n: int)
    ensures Apply(blockSize, (BlksizeName, Numerals.FormatInt(n))) == n
  {
    Numerals.ScanFormatRoundTrip(n);
  }

  /** The block size after the options have been applied in order. */
  function Fold(blockSize: int, options: seq<Pair>): int
    decreases |options|
  {
    if options == [] then blockSize else Fold(Apply(blockSize, options[0]), options[1..])
  }

  /** The request carried by `area`, the bytes after the opcode: the file
      name, the mode, and the options after them. */
  function DecodeRequest(area: seq<byte>): Request
  {
    var filename := StringAt(area, 0);
    Request(filename, StringAt(area, |filename| + 1), Fold(Unset, Pairs(From(area, OptionsAt(area)))))
  }

  /** Where the options start: after the file name, the mode and their NULs. */
  function OptionsAt(area: seq<byte>): nat
  {
    var modeAt := |StringAt(area, 0)| + 1;
    modeAt + |StringAt(area, modeAt)| + 1
  }

  /** Options as a client lays them out: each name and value NUL-terminated. */
  function EncodeOptions(options: seq<Pair>): seq<byte>
  {
    if options == [] then []
    else options[0].0 + [0] + options[0].1 + [0] + EncodeOptions(options[1..])
  }

  predicate WellFormed(options: seq<Pair>)
  {
    forall i :: 0 <= i < |options| ==> 0 !in options[i].0 && 0 !in options[i].1
  }

  /** The server's option parser, on a byte sequence instead of a raw
      buffer: the file name, then the mode, then the walk over the options.
      It computes the same request as `DecodeRequest`. */
  method ParseOptions(area: seq<byte>) returns (r: Request)
    ensures r == DecodeRequest(area)
  {
    var filename := StringAt(area, 0);
    var mode := StringAt(area, |filename| + 1);
    var at := |filename| + 1 + |mode| + 1;
    assert at == OptionsAt(area) by {
      OptionsFollowMode(area);
    }
    var blockSize := WalkOptions(From(area, at));
    r := Request(filename, mode, blockSize);
  }

  /** The pointer walk over the options: it reads a name and a value and
      moves past both, until the datagram ends, starting from "not
      negotiated". */
  method WalkOptions(options: seq<byte>) returns (blockSize: int)
    ensures blockSize == Fold(Unset, Pairs(options))
  {
    blockSize := Unset;
    var rest := options;
    while rest != []
      invariant Fold(blockSize, Pairs(rest)) == Fold(Unset, Pairs(options))
      decreases |rest|
    {
      var option := CString(rest);
      var value := StringAt(rest, |option| + 1);
      ghost var before := blockSize;
      if option == BlksizeName {
        match Numerals.ScanInt(value) {
          case Some(v) => blockSize := v;
          case None =>
        }
      }
      WalkStep(rest, option, value, before, blockSize);
      rest := From(rest, |option| + 1 + |value| + 1);
    }
  }

  /** The options start right after the mode's NUL. */
  lemma OptionsFollowMode(area: seq<byte>)
    ensures var filename := StringAt(area, 0);
      OptionsAt(area) == |filename| + 1 + |StringAt(area, |filename| + 1)| + 1
  {
  }

  /** One turn of the parser's loop applies the first remaining option and
      moves past it. */
  lemma WalkStep(rest: seq<byte>, option: seq<byte>, value: seq<byte>, before: int, after: int)
    requires rest != [] && option == CString(rest) && value == StringAt(rest, |option| + 1)
    requires after == Apply(before, (option, value))
    ensures Fold(before, Pairs(rest)) == Fold(after, Pairs(From(rest, |option| + 1 + |value| + 1)))
  {
    var pairs := Pairs(rest);
    var next := From(rest, |option| + 1 + |value| + 1);
    var tail := Pairs(next);
    assert Head(rest) == (option, value);
    assert From(rest, Skip(rest)) == next;
    assert pairs == [Head(rest)] + Pairs(From(rest, Skip(rest)));
    assert pairs[0] == (option, value) && pairs[1..] == tail;
    assert Fold(before, pairs) == Fold(Apply(before, pairs[0]), pairs[1..]);
  }

  lemma StringAtSuffix(area: seq<byte>, at: nat, k: nat)
    requires at < |area|
    ensures StringAt(area[at..], k) == StringAt(area, at + k)
  {
    if k < |area[at..]| {
      assert area[at..][k..] == area[at + k..];
    }
  }

  lemma FromFrom(area: seq<byte>, at: nat, k: nat)
    requires at < |area|
    ensures From(From(area, at), k) == From(area, at + k)
  {
    if at + k < |area| {
      assert area[at..][k..] == area[at + k..];
    }
  }

  /** The server reads back exactly the options a client encodes. */
  lemma {:induction false} PairsRoundTrip(options: seq<Pair>)
    requires WellFormed(options)
    ensures Pairs(EncodeOptions(options)) == options
  {
    if options != [] {
      var (name, value) := options[0];
      var tail := EncodeOptions(options[1..]);
      var area := EncodeOptions(options);
      assert Head(area) == options[0] && From(area, Skip(area)) == tail by {
        assert area == name + [0] + (value + [0] + tail);
        CStringOfTerminated(name, value + [0] + tail);
        assert area[|name| + 1..] == value + [0] + tail;
        CStringOfTerminated(value, tail);
      }
      assert Pairs(area) == [options[0]] + Pairs(tail);
      assert WellFormed(options[1..]) by {
        forall i | 0 <= i < |options[1..]|
          ensures 0 !in options[1..][i].0 && 0 !in options[1..][i].1
        {
          assert options[1..][i] == options[i + 1];
        }
      }
      PairsRoundTrip(options[1..]);
    }
  }

  /** A request laid out as file name, mode and options decodes to that file
      name and mode, with the block size the options select. */
  lemma RequestRoundTrip(filename: seq<byte>, mode: seq<byte>, options: seq<Pair>)
    requires 0 !in filename && 0 !in mode && WellFormed(options)
    ensures DecodeRequest(filename + [0] + mode + [0] + EncodeOptions(options))
         == Request(filename, mode, Fold(Unset, options))
  {
    var tail := EncodeOptions(options);
    var area := filename + [0] + mode + [0] + tail;
    var modeAt := |filename| + 1;
    assert StringAt(area, 0) == filename by {
      assert area == filename + [0] + (mode + [0] + tail);
      CStringOfTerminated(filename, mode + [0] + tail);
    }
    assert StringAt(area, modeAt) == mode by {
      assert area[modeAt..] == mode + [0] + tail;
      CStringOfTerminated(mode, tail);
    }
    assert From(area, OptionsAt(area)) == tail by {
      assert OptionsAt(area) == modeAt + |mode| + 1;
      assert area[modeAt + |mode| + 1..] == tail;
    }
    assert Pairs(tail) == options by {
      PairsRoundTrip(options);
    }
  }

  /** Options other than `blksize` never change the block size. */
  lemma {:induction false} ForeignOptionsIgnored(blockSize: int, options: seq<Pair>)
    requires forall i :: 0 <= i < |options| ==> options[i].0 != BlksizeName
    ensures Fold(blockSize, options) == blockSize
  {
    if options != [] {
      ForeignOptionsIgnored(blockSize, options[1..]);
    }
  }

  /** Options are applied in order, so a later `blksize` overrides an
      earlier one. */
  lemma {:induction false} LastOptionApplied(blockSize: int, options: seq<Pair>, option: Pair)
    ensures Fold(blockSize, options + [option]) == Apply(Fold(blockSize, options), option)
    decreases |options|
  {
    if options != [] {
      assert (options + [option])[1..] == options[1..] + [option];
      LastOptionApplied(Apply(blockSize, options[0]), options[1..], option);
    }
  }
}
