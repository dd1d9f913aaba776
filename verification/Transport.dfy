/** A connection whose every read is cut short, ends the stream or fails as a script says. */
module Transports {
  import opened Bytes

  function Min(a: int, b: int): int { if a < b then a else b }

  function Max0(a: int): nat { if a < 0 then 0 else a }

  /** What a read into `free` cells delivers: at most the next entry of the script, or -1. */
  function NextRead(script: seq<int>, input: seq<byte>, free: nat): (n: int)
    ensures -1 <= n <= free && n <= |input|
    ensures n < 0 <==> script != [] && script[0] < 0
    ensures n == 0 ==> script == [] || script[0] == 0 || free == 0 || input == []
  {
    if script == [] then 0
    else if script[0] < 0 then -1
    else Min(script[0], Min(free, |input|))
  }

  /** A connection: the bytes still to come, and how each of the next reads will turn out. */
  class Transport {
    var input: seq<byte>
    var script: seq<int>
    ghost var readCount: nat   // how many there were

    constructor (input: seq<byte>, script: seq<int>)
      ensures this.input == input && this.script == script
    {
      this.input, this.script := input, script;
      readCount := 0;
    }

    function Next(free: nat): (n: int)
      reads this
    {
      NextRead(script, input, free)
    }

    method Read(data: array<byte>, at: nat, free: nat) returns (n: int)
      requires at + free <= data.Length
      modifies this, data
      ensures n == old(Next(free))
      ensures script == if old(script) == [] then [] else old(script)[1..]
      ensures input == old(input)[Max0(n)..] && readCount == old(readCount) + 1
      ensures data[..] == old(data[..at]) + old(input)[..Max0(n)] + old(data[at + Max0(n)..])
    {
      n := Next(free);
      readCount := readCount + 1;
      if script != [] {
        script := script[1..];
      }
      if n > 0 {
        ghost var d, bytes := data[..], input;
        forall i | 0 <= i < n {
          data[at + i] := input[i];
        }
        input := input[n..];
        assert data[..] == d[..at] + bytes[..n] + d[at + n..];
      }
    }
  }
}
