/**
 * What terminal.Write does with its input, as values: which bytes it counts
 * as written, which runes it hands to the interpreter and how many invalid
 * sequences it reports. Ingest is the loop of vt_posix.go as written, run
 * over the results the reader yields; IngestMatchesTokens describes it token
 * by token, and IngestCons byte sequence by byte sequence. Buffered is the
 * ingestion the code evidently intends, which withholds a truncated
 * trailing sequence in full.
 */
module Ingestion {
  import opened Utf8
  import opened Reader

  /** The result of ingesting a byte sequence. */
  datatype Outcome = Outcome(written: nat, runes: seq<int>, warnings: nat)

  /** Nothing written, put or warned about. */
  const Nothing := Outcome(0, [], 0)

  /** Outcomes of consecutive writes, combined. */
  function Combine(a: Outcome, b: Outcome): Outcome {
    Outcome(a.written + b.written, a.runes + b.runes, a.warnings + b.warnings)
  }

  /**
   * The outcome so far, after one more token that is not withheld: a
   * one-byte RuneError is counted and warned about, any other rune is
   * counted and handed to put.
   */
  function Absorb(acc: Outcome, d: Decoded): Outcome {
    if IsInvalid(d) then Outcome(acc.written + 1, acc.runes, acc.warnings + 1)
    else Outcome(acc.written + d.size, acc.runes + [d.rune], acc.warnings)
  }

  /**
   * The loop of terminal.Write over the tokens the reader has still to
   * yield, with the outcome acc accumulated so far: a one-byte RuneError
   * that is the last token (the reader has no bytes left) ends it without
   * being counted; every other token is absorbed.
   */
  function Consume(ts: seq<Decoded>, acc: Outcome): Outcome {
    if ts == [] then acc
    else if IsInvalid(ts[0]) && |ts| == 1 then acc
    else Consume(ts[1..], Absorb(acc, ts[0]))
  }

  /** What terminal.Write makes of p: its loop run over all of the reader's tokens. */
  function Ingest(p: seq<byte>): Outcome {
    Consume(Tokens(p), Nothing)
  }

  /** Ingest's branch for one decoded rune, followed by the outcome for the rest of the input. */
  function Then(d: Decoded, o: Outcome): Outcome {
    if IsInvalid(d) then Outcome(1 + o.written, o.runes, 1 + o.warnings)
    else Outcome(d.size + o.written, [d.rune] + o.runes, o.warnings)
  }

  lemma ConsumeCons(d: Decoded, rest: seq<Decoded>, acc: Outcome)
    ensures Consume([d] + rest, acc)
            == if IsInvalid(d) && rest == [] then acc else Consume(rest, Absorb(acc, d))
  {
    assert ([d] + rest)[1..] == rest;
  }

  /** The loop only adds to what it has accumulated. */
  lemma {:induction false} ConsumeFrom(ts: seq<Decoded>, acc: Outcome)
    ensures Consume(ts, acc) == Combine(acc, Consume(ts, Nothing))
    decreases |ts|
  {
    if ts == [] || (IsInvalid(ts[0]) && |ts| == 1) {
      CombineNothing(acc);
    } else {
      var d, rest := ts[0], ts[1..];
      ConsumeFrom(rest, Absorb(acc, d));
      ConsumeFrom(rest, Absorb(Nothing, d));
      var o := Consume(rest, Nothing);
      if IsInvalid(d) {
        assert Combine(Absorb(Nothing, d), o) == Then(d, o);
      } else {
        assert (acc.runes + [d.rune]) + o.runes == acc.runes + ([d.rune] + o.runes);
      }
    }
  }

  /**
   * Ingest decodes the first rune, withholds it when it is a one-byte
   * RuneError on the last byte, and otherwise continues after it.
   */
  lemma IngestCons(p: seq<byte>)
    requires |p| > 0
    ensures var d := DecodeRune(p);
      Ingest(p) == if IsInvalid(d) && |p| == 1 then Nothing else Then(d, Ingest(p[d.size..]))
  {
    var d := DecodeRune(p);
    var rest := p[d.size..];
    TokensCons(p);
    ConsumeCons(d, Tokens(rest), Nothing);
    if !(IsInvalid(d) && |p| == 1) {
      TokensEmpty(rest);
      ConsumeFrom(Tokens(rest), Absorb(Nothing, d));
      var o := Ingest(rest);
      if !IsInvalid(d) {
        assert [] + [d.rune] + o.runes == [d.rune] + o.runes;
      }
    }
  }

  /**
   * One turn of terminal.Write's loop at offset i of s: the rune decoded
   * there ends the loop uncounted when it is an invalid last byte, and is
   * absorbed otherwise.
   */
  lemma ConsumeAt(s: seq<byte>, i: nat, acc: Outcome)
    requires i < |s|
    ensures i + DecodeRune(s[i..]).size <= |s|
    ensures Consume(Tokens(s[i..]), acc)
            == if IsInvalid(DecodeRune(s[i..])) && i + DecodeRune(s[i..]).size == |s| then acc
               else Consume(Tokens(s[i + DecodeRune(s[i..]).size..]), Absorb(acc, DecodeRune(s[i..])))
  {
    var j := i + DecodeRune(s[i..]).size;
    TokensAt(s, i);
    TokensEmpty(s[j..]);
    ConsumeCons(DecodeRune(s[i..]), Tokens(s[j..]), acc);
  }

  /**
   * The loop of terminal.Write over a reader over s positioned at offset i,
   * with the outcome acc accumulated so far.
   */
  function WriteFrom(s: seq<byte>, i: nat, acc: Outcome): Outcome
    decreases |s| - i
  {
    if i >= |s| then acc
    else
      var d := DecodeRune(s[i..]);
      if IsInvalid(d) && i + 1 == |s| then acc
      else WriteFrom(s, i + d.size, Absorb(acc, d))
  }

  /** One turn of that loop, at an offset before the end of s. */
  lemma WriteFromStep(s: seq<byte>, i: nat, acc: Outcome)
    requires i < |s|
    ensures i + DecodeRune(s[i..]).size <= |s|
    ensures WriteFrom(s, i, acc)
            == if IsInvalid(DecodeRune(s[i..])) && i + 1 == |s| then acc
               else WriteFrom(s, i + DecodeRune(s[i..]).size, Absorb(acc, DecodeRune(s[i..])))
  {
  }

  /** That loop is Consume over the tokens still to come at offset i. */
  lemma {:induction false} WriteFromConsume(s: seq<byte>, i: nat, acc: Outcome)
    requires i <= |s|
    ensures WriteFrom(s, i, acc) == Consume(Tokens(s[i..]), acc)
    decreases |s| - i
  {
    if i == |s| {
      TokensEmpty(s[i..]);
    } else {
      var d := DecodeRune(s[i..]);
      ConsumeAt(s, i, acc);
      if !(IsInvalid(d) && i + 1 == |s|) {
        WriteFromConsume(s, i + d.size, Absorb(acc, d));
      }
    }
  }

  /** Run from the first byte, that loop computes Ingest. */
  lemma WriteFromStart(p: seq<byte>)
    ensures WriteFrom(p, 0, Nothing) == Ingest(p)
  {
    WriteFromConsume(p, 0, Nothing);
    TokensAtStart(p);
  }

  lemma CombineNothing(acc: Outcome)
    ensures Combine(acc, Nothing) == acc
  {
    assert acc.runes + [] == acc.runes;
  }

  function Sizes(ts: seq<Decoded>): nat {
    if ts == [] then 0 else ts[0].size + Sizes(ts[1..])
  }

  /** The runes of the tokens that are not the one-byte RuneError, in order. */
  function Keep(ts: seq<Decoded>): seq<int> {
    if ts == [] then []
    else if IsInvalid(ts[0]) then Keep(ts[1..])
    else [ts[0].rune] + Keep(ts[1..])
  }

  function CountInvalid(ts: seq<Decoded>): nat {
    if ts == [] then 0 else (if IsInvalid(ts[0]) then 1 else 0) + CountInvalid(ts[1..])
  }

  /** The last token is a one-byte RuneError, i.e. the final byte decoded as one. */
  predicate EndsInvalid(ts: seq<Decoded>) {
    |ts| > 0 && IsInvalid(ts[|ts| - 1])
  }

  /** The reader's tokens cover the input exactly, each of 1 to 4 bytes. */
  lemma {:induction false} TokensCover(p: seq<byte>)
    ensures Sizes(Tokens(p)) == |p|
    ensures forall k :: 0 <= k < |Tokens(p)| ==> 1 <= Tokens(p)[k].size <= 4
    decreases |p|
  {
    if |p| > 0 {
      var d := DecodeRune(p);
      TokensCover(p[d.size..]);
      TokensCons(p);
      assert Tokens(p)[1..] == Tokens(p[d.size..]);
    }
  }

  /**
   * Ingest against the reader's tokens: the runes put are the tokens that
   * are not one-byte RuneErrors, in input order; every byte counts except a
   * final one-byte RuneError; every other one-byte RuneError is warned about.
   */
  lemma {:induction false} IngestMatchesTokens(p: seq<byte>)
    ensures Ingest(p).runes == Keep(Tokens(p))
    ensures Ingest(p).written == |p| - (if EndsInvalid(Tokens(p)) then 1 else 0)
    ensures Ingest(p).warnings == CountInvalid(Tokens(p)) - (if EndsInvalid(Tokens(p)) then 1 else 0)
    decreases |p|
  {
    if |p| > 0 {
      var d := DecodeRune(p);
      var rest := p[d.size..];
      IngestMatchesTokens(rest);
      IngestCons(p);
      var ts := Tokens(p);
      TokensCons(p);
      assert ts[1..] == Tokens(rest);
      if |rest| == 0 {
        assert ts == [d];
      } else {
        assert Tokens(rest) != [];
        assert ts[|ts| - 1] == Tokens(rest)[|Tokens(rest)| - 1];
      }
    }
  }

  /**
   * Write returns len(p) or len(p)-1, and len(p)-1 exactly when p is
   * non-empty and its final byte decoded as a one-byte RuneError.
   */
  lemma WrittenBounds(p: seq<byte>)
    ensures Ingest(p).written == |p| || Ingest(p).written == |p| - 1
    ensures Ingest(p).written == |p| - 1 <==> |p| > 0 && EndsInvalid(Tokens(p))
  {
    IngestMatchesTokens(p);
    if EndsInvalid(Tokens(p)) {
      TokensCover(p);
      assert Tokens(p) != [];
    }
  }

  /** A well-formed encoding, U+FFFD's three bytes EF BF BD included, reaches put whatever follows it. */
  lemma IngestEncoded(r: int, q: seq<byte>)
    requires IsScalar(r)
    ensures Ingest(Encode(r) + q)
         == Outcome(|Encode(r)| + Ingest(q).written, [r] + Ingest(q).runes, Ingest(q).warnings)
  {
    var e := Encode(r);
    DecodeEncode(r, q);
    IngestCons(e + q);
    assert (e + q)[|e|..] == q;
  }

  /** Well-formed UTF-8 text is consumed completely, all its runes reach put in order, and nothing is warned about. */
  lemma {:induction false} IngestText(rs: seq<int>)
    requires forall i :: 0 <= i < |rs| ==> IsScalar(rs[i])
    ensures Ingest(EncodeAll(rs)) == Outcome(|EncodeAll(rs)|, rs, 0)
  {
    if rs != [] {
      IngestText(rs[1..]);
      IngestEncoded(rs[0], EncodeAll(rs[1..]));
      assert [rs[0]] + rs[1..] == rs;
    }
  }

  /** A run of continuation bytes puts nothing; all its bytes but the last count, each with a warning. */
  lemma {:induction false} IngestContinuations(q: seq<byte>)
    requires |q| > 0 && forall k :: 0 <= k < |q| ==> IsContinuation(q[k])
    ensures Ingest(q) == Outcome(|q| - 1, [], |q| - 1)
    decreases |q|
  {
    ContinuationInvalid(q);
    IngestCons(q);
    if |q| > 1 {
      IngestContinuations(q[1..]);
    }
  }

  /**
   * A truncated multi-byte sequence at the end of the input is withheld
   * only in part: each of its earlier bytes is skipped as invalid (with a
   * warning) and counted; only its final byte is left out of the count.
   */
  lemma IngestTruncated(r: int, j: nat)
    requires IsScalar(r) && 0 < j < |Encode(r)|
    ensures Ingest(Encode(r)[..j]) == Outcome(j - 1, [], j - 1)
  {
    var p := Encode(r)[..j];
    TruncatedNotFull(r, j);
    NotFullRuneInvalid(p);
    IngestCons(p);
    if j > 1 {
      forall k | 0 <= k < |p[1..]| ensures IsContinuation(p[1..][k]) {
        EncodeTail(r, k + 1);
      }
      IngestContinuations(p[1..]);
    }
  }

  /**
   * The input that shows the defect: a rune split after its second byte
   * (or later) is lost. The first write consumes the leading byte as
   * invalid and reports it; resubmitting the unconsumed bytes followed by the
   * rest of the rune puts nothing, although the whole input holds the rune.
   */
  lemma AsWrittenSplitLoses(r: int, j: nat)
    requires IsScalar(r) && 2 <= j < |Encode(r)|
    ensures var e := Encode(r); var first := Ingest(e[..j]);
      first.written == j - 1 && first.warnings > 0 &&
      first.runes + Ingest(e[first.written..]).runes == [] &&
      Ingest(e).runes == [r]
  {
    var e := Encode(r);
    IngestTruncated(r, j);
    var tail := e[j - 1..];
    forall k | 0 <= k < |tail| ensures IsContinuation(tail[k]) {
      EncodeTail(r, j - 1 + k);
    }
    IngestContinuations(tail);
    IngestEncoded(r, []);
    assert e + [] == e;
  }

  /**
   * The evident intent of vt_posix.go:47-51: stop, without counting them,
   * at bytes that are only the beginning of a rune, and skip with a warning
   * every byte that is invalid whatever follows it.
   */
  function Buffered(p: seq<byte>): Outcome
    decreases |p|
  {
    if !FullRune(p) then Outcome(0, [], 0)
    else var d := DecodeRune(p); Then(d, Buffered(p[d.size..]))
  }

  /**
   * Splitting the input anywhere and resubmitting the unconsumed bytes in
   * front of the rest gives the same runes, count and warnings as one
   * write of everything.
   */
  lemma {:induction false} BufferedSplit(p: seq<byte>, q: seq<byte>)
    ensures Buffered(p).written <= |p|
    ensures Combine(Buffered(p), Buffered(p[Buffered(p).written..] + q)) == Buffered(p + q)
    decreases |p|
  {
    if FullRune(p) {
      var d := DecodeRune(p);
      var rest := p[d.size..];
      FullRuneStable(p, q);
      assert (p + q)[d.size..] == rest + q;
      assert Buffered(p + q) == Then(d, Buffered(rest + q));
      BufferedSplit(rest, q);
      var a := Buffered(rest);
      var b := Buffered(rest[a.written..] + q);
      assert Buffered(p) == Then(d, a);
      var k := Buffered(p).written;
      assert k == d.size + a.written;
      assert p[k..] == rest[a.written..];
      CombineThen(d, a, b);
      assert b == Buffered(p[k..] + q);
    } else {
      BufferedSplitPartial(p, q);
    }
  }

  /** A split before the first full rune: nothing is consumed, and all of p goes round again. */
  lemma BufferedSplitPartial(p: seq<byte>, q: seq<byte>)
    requires !FullRune(p)
    ensures Buffered(p).written == 0
    ensures Combine(Buffered(p), Buffered(p[Buffered(p).written..] + q)) == Buffered(p + q)
  {
    assert p[0..] == p;
    CombineEmpty(Buffered(p + q));
  }

  lemma CombineEmpty(b: Outcome)
    ensures Combine(Outcome(0, [], 0), b) == b
  {
    assert [] + b.runes == b.runes;
  }

  lemma CombineThen(d: Decoded, a: Outcome, b: Outcome)
    ensures Combine(Then(d, a), b) == Then(d, Combine(a, b))
  {
    if !IsInvalid(d) {
      assert [d.rune] + (a.runes + b.runes) == ([d.rune] + a.runes) + b.runes;
    }
  }

  /** Buffered's first step at offset i of s, when a full rune starts there. */
  lemma BufferedAt(s: seq<byte>, i: nat)
    requires i <= |s| && FullRune(s[i..])
    ensures i + DecodeRune(s[i..]).size <= |s|
    ensures Buffered(s[i..]) == Then(DecodeRune(s[i..]), Buffered(s[i + DecodeRune(s[i..]).size..]))
  {
    assert s[i..][DecodeRune(s[i..]).size..] == s[i + DecodeRune(s[i..]).size..];
  }

  /**
   * The loop of WriteBuffered over a reader over s positioned at offset i,
   * with the outcome acc accumulated so far: it ends, leaving the bytes
   * unread, where they no longer hold a full rune.
   */
  function BufferedFrom(s: seq<byte>, i: nat, acc: Outcome): Outcome
    decreases |s| - i
  {
    if i >= |s| || !FullRune(s[i..]) then acc
    else var d := DecodeRune(s[i..]); BufferedFrom(s, i + d.size, Absorb(acc, d))
  }

  /** One turn of that loop, at an offset where a full rune starts. */
  lemma BufferedFromStep(s: seq<byte>, i: nat, acc: Outcome)
    requires i <= |s| && FullRune(s[i..])
    ensures i < |s|
    ensures BufferedFrom(s, i, acc) == BufferedFrom(s, i + DecodeRune(s[i..]).size, Absorb(acc, DecodeRune(s[i..])))
  {
  }

  /** That loop completes the outcome so far with Buffered of the bytes it has still to read. */
  lemma {:induction false} BufferedFromCombine(s: seq<byte>, i: nat, acc: Outcome)
    requires i <= |s|
    ensures BufferedFrom(s, i, acc) == Combine(acc, Buffered(s[i..]))
    decreases |s| - i
  {
    if i == |s| || !FullRune(s[i..]) {
      CombineNothing(acc);
    } else {
      var d := DecodeRune(s[i..]);
      BufferedAt(s, i);
      BufferedFromCombine(s, i + d.size, Absorb(acc, d));
      CombineAbsorb(acc, d, Buffered(s[i + d.size..]));
    }
  }

  /** Run from the first byte, that loop computes Buffered. */
  lemma BufferedFromStart(p: seq<byte>)
    ensures BufferedFrom(p, 0, Nothing) == Buffered(p)
  {
    BufferedFromCombine(p, 0, Nothing);
    assert p[0..] == p;
    CombineEmpty(Buffered(p));
  }

  lemma CombineAbsorb(acc: Outcome, d: Decoded, o: Outcome)
    ensures Combine(Absorb(acc, d), o) == Combine(acc, Then(d, o))
  {
    if !IsInvalid(d) {
      assert (acc.runes + [d.rune]) + o.runes == acc.runes + ([d.rune] + o.runes);
    }
  }

  /** The corrected ingestion withholds a truncated trailing rune in full and warns about nothing. */
  lemma BufferedWithholds(r: int, j: nat)
    requires IsScalar(r) && 0 < j < |Encode(r)|
    ensures Buffered(Encode(r)[..j]) == Outcome(0, [], 0)
  {
    TruncatedNotFull(r, j);
  }

  /** On a complete rune the corrected ingestion puts it, like Write. */
  lemma BufferedEncoded(r: int, q: seq<byte>)
    requires IsScalar(r)
    ensures Buffered(Encode(r) + q)
         == Outcome(|Encode(r)| + Buffered(q).written, [r] + Buffered(q).runes, Buffered(q).warnings)
  {
    var e := Encode(r);
    DecodeEncode(r, q);
    assert FullRune(e + q);
    assert (e + q)[|e|..] == q;
  }

  /** On well-formed text the corrected ingestion does what Write does: every rune is put, nothing is withheld. */
  lemma {:induction false} BufferedText(rs: seq<int>)
    requires forall i :: 0 <= i < |rs| ==> IsScalar(rs[i])
    ensures Buffered(EncodeAll(rs)) == Outcome(|EncodeAll(rs)|, rs, 0)
    ensures Buffered(EncodeAll(rs)) == Ingest(EncodeAll(rs))
  {
    if rs != [] {
      BufferedText(rs[1..]);
      BufferedEncoded(rs[0], EncodeAll(rs[1..]));
      assert [rs[0]] + rs[1..] == rs;
    }
    IngestText(rs);
  }

  /**
   * The corrected ingestion withholds only bytes that more input can still
   * complete: what it leaves unconsumed is empty or a proper, non-empty
   * prefix of an encoding, never bytes that are invalid whatever follows.
   */
  lemma {:induction false} BufferedLeavesPrefix(p: seq<byte>)
    ensures Buffered(p).written <= |p|
    ensures var rest := p[Buffered(p).written..];
      rest == [] || exists r: int, j: nat :: IsScalar(r) && 0 < j < |Encode(r)| && Encode(r)[..j] == rest
    decreases |p|
  {
    if !FullRune(p) {
      assert p[0..] == p;
      if |p| > 0 {
        NotFullIsPrefix(p);
      }
    } else {
      var d := DecodeRune(p);
      var rest := p[d.size..];
      BufferedLeavesPrefix(rest);
      assert p[d.size + Buffered(rest).written..] == rest[Buffered(rest).written..];
    }
  }

  lemma {:induction false} KeepSnocInvalid(ts: seq<Decoded>)
    ensures Keep(ts + [Decoded(RuneError, 1)]) == Keep(ts)
    ensures CountInvalid(ts + [Decoded(RuneError, 1)]) == CountInvalid(ts) + 1
  {
    if ts != [] {
      assert (ts + [Decoded(RuneError, 1)])[1..] == ts[1..] + [Decoded(RuneError, 1)];
      KeepSnocInvalid(ts[1..]);
    }
  }

  /** The corrected ingestion of q followed by a byte that never appears in UTF-8. */
  lemma {:induction false} BufferedBeforeNever(q: seq<byte>, b: byte)
    requires NeverAppears(b)
    ensures Buffered(q + [b]) == Outcome(|q| + 1, Keep(Tokens(q)), CountInvalid(Tokens(q)) + 1)
    decreases |q|
  {
    FullRuneBeforeNever(q, b);
    if |q| == 0 {
      assert [] + [b] == [b];
      assert [b][1..] == [];
    } else {
      var d := DecodeRune(q);
      DecodeBeforeNever(q, b);
      assert (q + [b])[d.size..] == q[d.size..] + [b];
      BufferedBeforeNever(q[d.size..], b);
      TokensCons(q);
    }
  }

  /**
   * A last byte that never appears in UTF-8 (C0, C1, F5 to FF) is where the
   * two ingestions part: Write counts every byte before it and withholds
   * it, uncounted and unreported, as if it might yet begin a rune; the
   * corrected ingestion counts it too and warns about it once. Both put the
   * same runes.
   */
  lemma InvalidLastByte(q: seq<byte>, b: byte)
    requires NeverAppears(b)
    ensures Ingest(q + [b]) == Outcome(|q|, Keep(Tokens(q)), CountInvalid(Tokens(q)))
    ensures Buffered(q + [b]) == Outcome(|q| + 1, Keep(Tokens(q)), CountInvalid(Tokens(q)) + 1)
  {
    TokensBeforeNever(q, b);
    KeepSnocInvalid(Tokens(q));
    IngestMatchesTokens(q + [b]);
    BufferedBeforeNever(q, b);
  }
}
