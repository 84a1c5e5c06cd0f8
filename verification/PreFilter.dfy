/** Splits a sentence at its separator runes. */
module PreFilter {
  import opened Common
  import opened Unicode

  datatype Range = Range(begin: nat, end: nat)

  class PreFilter {
    const symbols: set<Rune>
    var sentence: seq<RuneStr>
    var cursor: nat

    ghost predicate Valid()
      reads this
    {
      cursor <= |sentence|
    }

    constructor (symbols: set<Rune>, text: seq<Byte>)
      requires |text| <= UINT32_MAX
      ensures Valid() && cursor == 0 && this.symbols == symbols
      ensures Decodable(text) ==> Tiles(text, sentence, |text|)
      ensures !Decodable(text) ==> sentence == []
    {
      var _, runes := DecodeRunesInString(text);
      this.symbols := symbols;
      this.sentence := runes;
      this.cursor := 0;
    }

    predicate HasNext()
      reads this
    {
      cursor != |sentence|
    }

    // No separator in [from, to).
    ghost predicate Plain(from: nat, to: nat)
      requires from <= to <= |sentence|
      reads this
    {
      forall k | from <= k < to :: sentence[k].rune !in symbols
    }

    // A piece is a single separator, or a separator-free run that cannot be made longer.
    method Next() returns (range: Range)
      requires Valid() && HasNext()
      modifies this`cursor
      ensures Valid()
      ensures range.begin == old(cursor) < range.end == cursor
      ensures
        || (range.end == range.begin + 1 && sentence[range.begin].rune in symbols)
        || (Plain(range.begin, range.end) && (range.end < |sentence| ==> sentence[range.end].rune in symbols))
    {
      var begin := cursor;
      while cursor != |sentence|
        invariant begin <= cursor <= |sentence|
        invariant Plain(begin, cursor)
        decreases |sentence| - cursor
      {
        if sentence[cursor].rune in symbols {
          if begin == cursor {
            cursor := cursor + 1;
          }
          return Range(begin, cursor);
        }
        cursor := cursor + 1;
      }
      return Range(begin, |sentence|);
    }
  }
}
