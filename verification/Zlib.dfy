/**
  The compression library as its users may rely on it: what a codec does to whole texts,
  and how a stream takes its input and delivers its output in pieces.  How large the
  pieces are is up to the library; here a `Pace` decides.
*/
module Zlib {
  import opened CText

  /** What a text decompresses to; the data of the last two is what is delivered before the stream stops. */
  datatype Inflation = Complete(data: string) | Incomplete(data: string) | Corrupt(data: string)

  datatype Codec = Codec(deflate: string -> string, inflate: string -> Inflation)

  /** A compressed text is restored, whatever follows it, and none of its proper prefixes is complete. */
  ghost predicate Lossless(c: Codec) {
    && (forall x: string, rest: string :: c.inflate(c.deflate(x) + rest) == Complete(x))
    && (forall x: string, n: nat | n < |c.deflate(x)| :: c.inflate(c.deflate(x)[..n]).Incomplete?)
  }

  /** A codec that restores every text never compresses to nothing. */
  lemma DeflatedIsNonempty(c: Codec, x: string)
    requires Lossless(c)
    ensures c.deflate(x) != "" && c.inflate(c.deflate(x)) == Complete(x)
  {
    var y := x + "y";
    assert c.deflate(x) + "" == c.deflate(x) && c.deflate(y) + "" == c.deflate(y);
    assert c.inflate(c.deflate(y)) == Complete(y) && c.inflate(c.deflate(x) + c.deflate(y)) == Complete(x);
    assert c.deflate(x) == "" ==> c.deflate(x) + c.deflate(y) == c.deflate(y);
  }

  /** Stores a text with a mark before each byte and another at the end. */
  function Stored(x: string): string {
    if x == "" then "." else ['+', x[0]] + Stored(x[1..])
  }

  function Restored(z: string): Inflation {
    if z == "" then Incomplete("")
    else if z[0] == '.' then Complete("")
    else if z[0] != '+' then Corrupt("")
    else if |z| == 1 then Incomplete("")
    else
      match Restored(z[2..])
      case Complete(data) => Complete([z[1]] + data)
      case Incomplete(data) => Incomplete([z[1]] + data)
      case Corrupt(data) => Corrupt([z[1]] + data)
  }

  lemma RestoredStep(c: char, z: string, data: string)
    requires Restored(z) == Complete(data)
    ensures Restored(['+', c] + z) == Complete([c] + data)
  {
    assert (['+', c] + z)[2..] == z;
  }

  lemma RestoredEnd(rest: string)
    ensures Restored("." + rest) == Complete("")
  {
    assert ("." + rest)[0] == '.';
  }

  lemma {:induction false} RestoredOfStored(x: string, rest: string)
    ensures Restored(Stored(x) + rest) == Complete(x)
  {
    hide Restored;
    if x == "" {
      RestoredEnd(rest);
    } else {
      RestoredOfStored(x[1..], rest);
      RestoredStep(x[0], Stored(x[1..]) + rest, x[1..]);
      assert Stored(x) + rest == ['+', x[0]] + (Stored(x[1..]) + rest);
      assert [x[0]] + x[1..] == x;
    }
  }

  lemma {:induction false} RestoredOfPrefix(x: string, n: nat)
    requires n < |Stored(x)|
    ensures Restored(Stored(x)[..n]).Incomplete?
  {
    if n >= 2 {
      var z := Stored(x)[..n];
      assert z[2..] == Stored(x[1..])[..n - 2] && z[0] == '+';
      RestoredOfPrefix(x[1..], n - 2);
    }
  }

  /** The contract can be met. */
  lemma LosslessCodecExists()
    ensures exists c: Codec :: Lossless(c)
  {
    var c := Codec(Stored, Restored);
    forall x: string, rest: string ensures c.inflate(c.deflate(x) + rest) == Complete(x) {
      RestoredOfStored(x, rest);
    }
    forall x: string, n: nat | n < |c.deflate(x)| ensures c.inflate(c.deflate(x)[..n]).Incomplete? {
      RestoredOfPrefix(x, n);
    }
    assert Lossless(c);
  }

  /** The library's choices at its calls: what to take, what to deliver, and what to do when output just fits. */
  datatype Pace = Pace(takes: nat -> nat, delivers: nat -> nat, waits: nat -> bool)

  function Min(a: nat, b: nat): nat {
    if a < b then a else b
  }

  datatype Status = Ok | StreamEnd | DataError | BufError

  /** A deflate stream, with all of its input at hand. */
  class Deflater {
    const output: string
    const pace: Pace
    var availIn: nat
    var totalOut: nat
    var calls: nat

    ghost predicate Valid()
      reads this
    {
      totalOut <= |output|
    }

    constructor (codec: Codec, input: string, pace: Pace)
      ensures Valid() && output == codec.deflate(input) && availIn == |input| && totalOut == 0
    {
      output := codec.deflate(input);
      this.pace := pace;
      availIn := |input|;
      totalOut := 0;
      calls := 0;
    }

    /** Delivers the next bytes of the output to `out[at..]`. */
    method Deliver(out: array<char>, at: nat, n: nat)
      requires Valid() && at + n <= out.Length && totalOut + n <= |output|
      modifies this, out
      ensures Valid() && totalOut == old(totalOut) + n && availIn == old(availIn)
      ensures out[..at + n] == old(out[..at]) + output[old(totalOut)..totalOut]
    {
      CopyText(out, at, output[totalOut..totalOut + n]);
      totalOut := totalOut + n;
      calls := calls + 1;
    }

    /** deflate with Z_NO_FLUSH: goes on until the input is used up or the output is full. */
    method Deflate(out: array<char>, at: nat, availOut: nat) returns (left: nat)
      requires Valid() && availOut > 0 && at + availOut <= out.Length
      modifies this, out
      ensures Valid() && left <= availOut && totalOut == old(totalOut) + (availOut - left)
      ensures out[..at + (availOut - left)] == old(out[..at]) + output[old(totalOut)..totalOut]
      ensures availIn <= old(availIn) && (availIn == 0 || left == 0)
    {
      var n := Min(pace.delivers(calls), Min(availOut, |output| - totalOut));
      var taken := if n < availOut then availIn else Min(pace.takes(calls), availIn);
      Deliver(out, at, n);
      availIn := availIn - taken;
      left := availOut - n;
    }

    /**
      deflate with Z_FINISH: reports the end only when everything is delivered, and stops
      before only when the output is full.
    */
    method Finish(out: array<char>, at: nat, availOut: nat) returns (status: Status, left: nat)
      requires Valid() && availIn == 0 && availOut > 0 && at + availOut <= out.Length
      modifies this, out
      ensures Valid() && left <= availOut && totalOut == old(totalOut) + (availOut - left) && availIn == 0
      ensures out[..at + (availOut - left)] == old(out[..at]) + output[old(totalOut)..totalOut]
      ensures status == StreamEnd || (status == Ok && left == 0)
      ensures status == StreamEnd ==> totalOut == |output|
    {
      var n := Min(availOut, |output| - totalOut);
      Deliver(out, at, n);
      left := availOut - n;
      status := if totalOut < |output| || (left == 0 && pace.waits(calls)) then Ok else StreamEnd;
    }
  }

  /** An inflate stream, with all of its input at hand. */
  class Inflater {
    const inflation: Inflation
    const pace: Pace
    var totalOut: nat
    var calls: nat

    ghost predicate Valid()
      reads this
    {
      totalOut <= |inflation.data|
    }

    /** Nothing is left to deliver. */
    predicate Exhausted()
      reads this
      requires Valid()
    {
      totalOut == |inflation.data|
    }

    constructor (codec: Codec, input: string, pace: Pace)
      ensures Valid() && inflation == codec.inflate(input) && totalOut == 0
    {
      inflation := codec.inflate(input);
      this.pace := pace;
      totalOut := 0;
      calls := 0;
    }

    /**
      inflate: stops when the output is full, the input is used up or the stream ends, and
      reports the end in the call that delivers the last byte.
    */
    method Inflate(out: array<char>, at: nat, availOut: nat) returns (status: Status, left: nat)
      requires Valid() && availOut > 0 && (at + availOut <= out.Length || Exhausted())
      modifies this, out
      ensures Valid() && left <= availOut && totalOut == old(totalOut) + (availOut - left)
      ensures left == 0 || Exhausted()
      ensures at <= out.Length ==>
                at + (availOut - left) <= out.Length
                && out[..at + (availOut - left)] == old(out[..at]) + inflation.data[old(totalOut)..totalOut]
      ensures inflation.Complete? ==> status == if Exhausted() then StreamEnd else Ok
      ensures inflation.Incomplete? ==> status == if left == availOut then BufError else Ok
      ensures inflation.Corrupt? ==> status == DataError || (status == Ok && left == 0)
    {
      var n := Min(availOut, |inflation.data| - totalOut);
      if n > 0 {
        CopyText(out, at, inflation.data[totalOut..totalOut + n]);
        totalOut := totalOut + n;
      }
      left := availOut - n;
      match inflation {
        case Complete(_) => status := if Exhausted() then StreamEnd else Ok;
        case Incomplete(_) => status := if n == 0 then BufError else Ok;
        case Corrupt(_) => status := if left == 0 && pace.waits(calls) then Ok else DataError;
      }
      calls := calls + 1;
    }
  }
}
