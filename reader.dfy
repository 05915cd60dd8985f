/**
 * The part of Go's bytes.Reader that the terminal's Write methods use: a
 * read position over an in-memory byte slice, ReadRune and Len.
 */
module Reader {
  import opened Utf8

  datatype Option<T> = None | Some(value: T)

  /** The errors a reader can report; an in-memory reader only ever reports EOF. */
  datatype Error = EOF | Failure(msg: string)

  /** The successive results of ReadRune on a reader over p, up to io.EOF. */
  function Tokens(p: seq<byte>): seq<Decoded>
    decreases |p|
  {
    if |p| == 0 then [] else var d := DecodeRune(p); [d] + Tokens(p[d.size..])
  }

  /** A non-empty input yields its first decoded rune, then the tokens of the bytes after it. */
  lemma TokensCons(p: seq<byte>)
    requires |p| > 0
    ensures Tokens(p) == [DecodeRune(p)] + Tokens(p[DecodeRune(p).size..])
  {
  }

  /**
   * The tokens still to come at offset i of s: the first decoded rune
   * there, then the tokens after it.
   */
  lemma TokensAt(s: seq<byte>, i: nat)
    requires i < |s|
    ensures Tokens(s[i..]) == [DecodeRune(s[i..])] + Tokens(s[i + DecodeRune(s[i..]).size..])
  {
    assert s[i..][DecodeRune(s[i..]).size..] == s[i + DecodeRune(s[i..]).size..];
    TokensCons(s[i..]);
  }

  /** A reader that has read nothing has all the tokens of its slice still to yield. */
  lemma TokensAtStart(s: seq<byte>)
    ensures Tokens(s[0..]) == Tokens(s)
  {
    assert s[0..] == s;
  }

  /** The reader yields no token exactly when no byte is left. */
  lemma TokensEmpty(p: seq<byte>)
    ensures Tokens(p) == [] <==> |p| == 0
  {
  }

  /**
   * A byte that never appears in UTF-8, appended to q, leaves the tokens of
   * q as they are and adds one one-byte RuneError of its own.
   */
  lemma {:induction false} TokensBeforeNever(q: seq<byte>, b: byte)
    requires NeverAppears(b)
    ensures Tokens(q + [b]) == Tokens(q) + [Decoded(RuneError, 1)]
    decreases |q|
  {
    if |q| == 0 {
      assert [] + [b] == [b];
      assert [b][1..] == [];
    } else {
      var d := DecodeRune(q);
      DecodeBeforeNever(q, b);
      assert (q + [b])[d.size..] == q[d.size..] + [b];
      TokensBeforeNever(q[d.size..], b);
    }
  }

  /**
   * bytes.Reader: the slice it reads, the offset of the next byte to read,
   * and the offset at which the last ReadRune began (-1 when it read
   * nothing), which UnreadRune would return to.
   */
  class BytesReader {
    const s: seq<byte>
    var i: nat
    var prevRune: int

    /** bytes.NewReader(b): a reader positioned at the first byte of b. */
    constructor (b: seq<byte>)
      ensures s == b && i == 0 && prevRune == -1
    {
      s, i, prevRune := b, 0, -1;
    }

    /** The number of bytes not yet read. */
    function Len(): (n: nat)
      reads this
      ensures n == 0 <==> i >= |s|
      ensures i < |s| ==> i + n == |s|
    {
      if i >= |s| then 0 else |s| - i
    }

    /**
     * Reads the next rune: io.EOF once the input is exhausted, otherwise
     * what utf8.DecodeRune returns for the unread bytes (ASCII takes a fast
     * path with the same result), which it then consumes.
     */
    method ReadRune() returns (ch: int, size: nat, err: Option<Error>)
      modifies this`i, this`prevRune
      ensures old(i) >= |s| ==> ch == 0 && size == 0 && err == Some(EOF) && i == old(i) && prevRune == -1
      ensures old(i) < |s| ==> err == None && Decoded(ch, size) == DecodeRune(s[old(i)..])
                               && 1 <= size && i == old(i) + size <= |s| && prevRune == old(i)
    {
      if i >= |s| {
        prevRune := -1;
        return 0, 0, Some(EOF);
      }
      prevRune := i;
      var c := s[i];
      if c < 0x80 {
        i := i + 1;
        return c as int, 1, None;
      }
      var d := DecodeRune(s[i..]);
      ch, size, err := d.rune, d.size, None;
      i := i + size;
    }
  }
}
