/** Writing text piece by piece into a buffer that may be too small: the way every printer of the
    library advances through its buffer (src/cpuset.c, src/topology-xml.c). */
module TextBuffer {

  const NUL: char := '\0'

  function Fitting(text: string, room: nat): string {
    if |text| <= room then text else text[..room]
  }

  class Output {
    const buffer: array<char>
    /** Where the next piece goes, how much room is left there (counting the final NUL), and how
        much has been written or would have been. */
    var pos: nat
    var remaining: nat
    var written: nat
    ghost var text: string

    ghost predicate Valid()
      reads this, buffer
    {
      && pos + remaining == buffer.Length && written == |text|
      && (buffer.Length == 0 ==> remaining == 0)
      && (buffer.Length > 0 ==>
            && remaining > 0 && buffer[pos] == NUL
            && buffer[..pos] == Fitting(text, buffer.Length - 1))
    }

    constructor (size: nat)
      ensures Valid() && text == "" && buffer.Length == size && fresh(buffer)
    {
      buffer := new char[size](_ => NUL);
      pos, remaining, written, text := 0, size, 0, "";
    }

    /** One `snprintf` of `piece`, and the arithmetic that follows it. Whatever the size of the
        buffer, it holds the part of the text that fits, and `written` is the length of all of it. */
    method Put(piece: string)
      requires Valid()
      modifies this`pos, this`remaining, this`written, this`text, buffer
      ensures Valid() && text == old(text) + piece
    {
      var res := |piece|;
      WriteAt(piece);
      written := written + res;
      if res >= remaining {
        res := if remaining > 0 then remaining - 1 else 0;
      }
      PutFits(text, piece, buffer.Length - 1);
      text := text + piece;
      pos := pos + res;
      remaining := remaining - res;
    }

    /** `snprintf` itself: as much of the piece as fits, and a NUL. */
    method WriteAt(piece: string)
      requires pos + remaining == buffer.Length
      modifies buffer
      ensures remaining > 0 ==>
        var n := if |piece| < remaining then |piece| else remaining - 1;
        buffer[..pos + n] == old(buffer[..pos]) + piece[..n] && buffer[pos + n] == NUL
    {
      if remaining > 0 {
        var n := if |piece| < remaining then |piece| else remaining - 1;
        forall k | 0 <= k < n {
          buffer[pos + k] := piece[k];
        }
        buffer[pos + n] := NUL;
        assert buffer[..pos] == old(buffer[..pos]);
        assert buffer[pos..pos + n] == piece[..n];
        assert buffer[..pos + n] == buffer[..pos] + buffer[pos..pos + n];
      }
    }
  }

  lemma PutFits(text: string, piece: string, room: int)
    ensures room >= 0 ==>
      var before := Fitting(text, room);
      var n := if |piece| <= room - |before| then |piece| else room - |before|;
      n >= 0 && Fitting(text + piece, room) == before + piece[..n]
  {
  }
}
