/** A query that is read and not printed. */
module QuerySentences {
  import opened Machine
  import opened BoolQuery
  import opened QueryText
  import opened QueryItems
  import opened QueryPrint
  import opened QueryIO
  import opened QuerySpelling

  // ----- A query that is not printed -----

  /** The longest number that can be printed. */
  lemma {:induction false} LongestNumber()
    ensures |Decimal(INT_MIN)| == 11
  {
    assert |Digits(2)| == 1;
    assert |Digits(21)| == 2;
    assert |Digits(214)| == 3;
    assert |Digits(2147)| == 4;
    assert |Digits(21474)| == 5;
    assert |Digits(214748)| == 6;
    assert |Digits(2147483)| == 7;
    assert |Digits(21474836)| == 8;
    assert |Digits(214748364)| == 9;
    assert |Digits(2147483648)| == 10;
  }

  /** A number `m + 1` times, joined by `&`. */
  function Chunk(v: int, m: nat): Conj { if m == 0 then Only(Num(v)) else Also(Chunk(v, m - 1), Num(v)) }

  /** `k + 1` chunks in parentheses joined by `&`. */
  function Chunks(v: int, m: nat, k: nat): Conj {
    var chunk := Paren(One(Chunk(v, m)));
    if k == 0 then Only(chunk) else Also(Chunks(v, m, k - 1), chunk)
  }

  lemma {:induction false} ChunkIs(v: int, m: nat, h: nat)
    requires Int32(v) && |Decimal(v)| == 11
    ensures FitsC(Chunk(v, m), h)
    ensures var e := ExprC(Chunk(v, m));
            Size(e) == 2 * m + 1 && AllInt32(e) && |Print(e, false)| == 14 * m + 11 && (m <= 16383 ==> RightsFit(e))
  {
    if m == 0 {
      assert ExprC(Chunk(v, m)) == Val(v);
    } else {
      ChunkIs(v, m - 1, h);
      var l := ExprC(Chunk(v, m - 1));
      assert ExprC(Chunk(v, m)) == And(l, Val(v));
      assert Print(Val(v), false) == Decimal(v);
      assert Print(And(l, Val(v)), false) == Joined(Print(l, false), Amp, Decimal(v));
    }
  }

  lemma {:induction false} ChunkInts(v: int, m: nat)
    requires Int32(v)
    ensures Ints(YieldC(Chunk(v, m)))
  {
    if m > 0 { ChunkInts(v, m - 1); }
  }

  lemma {:induction false} ChunksInts(v: int, m: nat, k: nat)
    requires Int32(v)
    ensures Ints(YieldC(Chunks(v, m, k)))
  {
    var c := Chunk(v, m);
    ChunkInts(v, m);
    ParenInts(c);
    if k == 0 {
      assert Chunks(v, m, k) == Only(Paren(One(c)));
    } else {
      ChunksInts(v, m, k - 1);
      assert Chunks(v, m, k) == Also(Chunks(v, m, k - 1), Paren(One(c)));
    }
  }

  /** The leaves of all chunks. */
  function Leaves(m: nat, k: nat): nat { if k == 0 then m + 1 else Leaves(m, k - 1) + m + 1 }

  lemma {:induction false} LeavesProduct(m: nat, k: nat)
    ensures Leaves(m, k) == (m + 1) * (k + 1)
  {
    if k > 0 {
      LeavesProduct(m, k - 1);
      assert (m + 1) * (k + 1) == (m + 1) * k + (m + 1);
    }
  }

  lemma ParenIs(c: Conj)
    ensures ExprF(Paren(One(c))) == ExprC(c)
  {
    var d := One(c);
    assert ExprD(d) == ExprC(c);
  }

  lemma {:induction false} ParenInts(c: Conj)
    requires Ints(YieldC(c))
    ensures Ints(YieldF(Paren(One(c))))
  {
    var d := One(c);
    assert YieldF(Paren(d)) == [TOpen] + YieldC(c) + [TClose];
  }

  lemma {:induction false} ChunksAre(v: int, m: nat, k: nat)
    requires Int32(v) && |Decimal(v)| == 11 && m <= 16383
    ensures FitsC(Chunks(v, m, k), 0)
    ensures var e := ExprC(Chunks(v, m, k));
            Size(e) == 2 * Leaves(m, k) - 1 && AllInt32(e) && RightsFit(e) && |Print(e, false)| == 14 * Leaves(m, k) - 3
  {
    ChunkIs(v, m, 0);
    ChunkIs(v, m, 1);
    var f := Paren(One(Chunk(v, m)));
    ParenIs(Chunk(v, m));
    assert FitsF(f, 1) && ExprF(f) == ExprC(Chunk(v, m));
    if k == 0 {
      assert ExprC(Chunks(v, m, k)) == ExprF(f);
    } else {
      ChunksAre(v, m, k - 1);
      var l := ExprC(Chunks(v, m, k - 1));
      assert ExprC(Chunks(v, m, k)) == And(l, ExprF(f));
      assert Print(And(l, ExprF(f)), false) == Joined(Print(l, false), Amp, Print(ExprF(f), false));
    }
  }

  lemma {:induction false} ChunksNotPrinted(v: int, m: nat, k: nat) returns (text: string, e: Expr)
    requires Int32(v) && |Decimal(v)| == 11 && m <= 16383
    requires 14 * Leaves(m, k) - 2 >= BUF_MAX && 2 * Leaves(m, k) - 1 <= QUERYTYPEMAXITEMS
    ensures CString(text) && Denotes(text, e) && Size(e) <= QUERYTYPEMAXITEMS && RightsFit(e)
    ensures AllInt32(e) && Demand(e) >= BUF_MAX
  {
    ChunksAre(v, m, k);
    ChunksInts(v, m, k);
    var d := One(Chunks(v, m, k));
    var gaps := seq(|YieldD(d)|, _ => 0);
    SentenceDenoted(d, gaps, 0);
    text, e := Text(Spaced(YieldD(d), gaps), 0), ExprD(d);
    assert Print(e, true) == Print(e, false);
    PeakBounds(e, true, 0);
  }

  /** 3072 chunks of 16384 numbers are read, stored and evaluated, but their text has 704643069 bytes. */
  lemma ReadNotPrinted() returns (text: string, e: Expr)
    ensures CString(text) && Denotes(text, e) && Size(e) <= QUERYTYPEMAXITEMS && RightsFit(e)
    ensures AllInt32(e) && Demand(e) >= BUF_MAX
  {
    LongestNumber();
    text, e := ManyChunks(INT_MIN, 16383, 3071);
  }

  lemma {:induction false} ManyChunks(v: int, m: nat, k: nat) returns (text: string, e: Expr)
    requires Int32(v) && |Decimal(v)| == 11 && m == 16383 && k == 3071
    ensures CString(text) && Denotes(text, e) && Size(e) <= QUERYTYPEMAXITEMS && RightsFit(e)
    ensures AllInt32(e) && Demand(e) >= BUF_MAX
  {
    LeavesProduct(m, k);
    text, e := ChunksNotPrinted(v, m, k);
  }
}
