/**
 The pair records shared by the hash table, the heap and the occurrence lists.

 A record is an index into five columns of equal length, one column per field of the source's
 record struct, so that each structure's frame can name exactly the field it writes.
 */
module RecordTable {

  datatype Pair = Pair(left: int, right: int)

  /** A pair is packed into two words of 32 bits. */
  const WORD: int := 0x1_0000_0000

  class Records {
    var pair: seq<Pair>  // pair content
    var freq: seq<int>   // frequency
    var cpos: seq<int>   // first position in the text
    var hpos: seq<int>   // position in the heap
    var kpos: seq<int>   // position in the hash table

    ghost predicate Aligned()
      reads this
    {
      |pair| == |freq| == |cpos| == |hpos| == |kpos|
    }

    constructor ()
      ensures Aligned() && pair == []
    {
      pair, freq, cpos, hpos, kpos := [], [], [], [], [];
    }
  }
}
