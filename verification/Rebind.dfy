/** Rewriting "?" placeholders to "$1", "$2", ... outside quotes. */
module Rebind {
  import opened Numerals

  datatype Mode = Plain | Single | Double

  /** The quote state after one more byte. */
  function Next(mode: Mode, ch: char): Mode {
    match mode
    case Single => if ch == '\'' then Plain else Single
    case Double => if ch == '"' then Plain else Double
    case Plain => if ch == '\'' then Single else if ch == '"' then Double else Plain
  }

  /** The quote state before byte `i`, from the start of the query. */
  function ModeAt(q: string, i: nat): Mode
    requires i <= |q|
  {
    if i == 0 then Plain else Next(ModeAt(q, i - 1), q[i - 1])
  }

  /** A quote character opens quoted text, and from there on only the same character closes it. */
  lemma QuotesExact(q: string, i: nat)
    requires i < |q|
    ensures var before, after := ModeAt(q, i), ModeAt(q, i + 1);
            && ModeAt(q, 0) == Plain
            && (before == Plain ==>
                  && (after == Single <==> q[i] == '\'') && (after == Double <==> q[i] == '\"')
                  && (after == Plain <==> q[i] != '\'' && q[i] != '\"'))
            && (before == Single ==> after == if q[i] == '\'' then Plain else Single)
            && (before == Double ==> after == if q[i] == '\"' then Plain else Double)
  {
  }

  /** Quoted text reaches from its opening quote to the next quote of the same kind, whatever is in between. */
  lemma {:induction false} QuotedUntilClosed(q: string, i: nat, j: nat)
    requires i < j <= |q| && ModeAt(q, i) == Plain && q[i] in {'\'', '\"'}
    requires forall k :: i < k < j ==> q[k] != q[i]
    ensures forall k :: i < k <= j ==> ModeAt(q, k) == if q[i] == '\'' then Single else Double
    ensures j < |q| && q[j] == q[i] ==> ModeAt(q, j + 1) == Plain
    decreases j
  {
    if j > i + 1 {
      QuotedUntilClosed(q, i, j - 1);
    }
    assert ModeAt(q, j) == if q[i] == '\'' then Single else Double;
    assert j < |q| ==> ModeAt(q, j + 1) == Next(ModeAt(q, j), q[j]);
  }

  predicate Placeholder(q: string, i: nat)
    requires i < |q|
  {
    q[i] == '?' && ModeAt(q, i) == Plain
  }

  /** The placeholders among the first `i` bytes. */
  function Before(q: string, i: nat): set<nat>
    requires i <= |q|
  {
    set j: nat | j < i && Placeholder(q, j)
  }

  /** The rewritten rest of a query, in a quote state and with `n` placeholders behind. */
  function RebindFrom(q: string, mode: Mode, n: nat): string {
    if q == "" then ""
    else if mode == Plain && q[0] == '?' then "$" + Decimal(n + 1) + RebindFrom(q[1..], Plain, n + 1)
    else [q[0]] + RebindFrom(q[1..], Next(mode, q[0]), n)
  }

  function Rebound(q: string): string {
    RebindFrom(q, Plain, 0)
  }

  lemma {:induction false} NothingToRebind(q: string, mode: Mode, n: nat)
    requires '?' !in q
    ensures RebindFrom(q, mode, n) == q
  {
    if q != "" {
      NothingToRebind(q[1..], Next(mode, q[0]), n);
    }
  }

  function Piece(ch: char, mode: Mode, n: nat): string {
    if mode == Plain && ch == '?' then "$" + Decimal(n + 1) else [ch]
  }

  function Counted(ch: char, mode: Mode, n: nat): nat {
    if mode == Plain && ch == '?' then n + 1 else n
  }

  lemma RebindStep(b: string, q: string, i: nat, mode: Mode, n: nat)
    requires i < |q|
    ensures b + RebindFrom(q[i..], mode, n)
         == (b + Piece(q[i], mode, n)) + RebindFrom(q[i + 1..], Next(mode, q[i]), Counted(q[i], mode, n))
  {
    assert q[i..][0] == q[i] && q[i..][1..] == q[i + 1..];
  }

  function ModeOf(inSingle: bool, inDouble: bool): Mode {
    if inSingle then Single else if inDouble then Double else Plain
  }

  method RebindQuery(query: string) returns (r: string)
    ensures r == Rebound(query)
  {
    hide RebindFrom, Decimal;
    if '?' !in query {
      NothingToRebind(query, Plain, 0);
      return query;
    }
    var b: string := "";
    var n: nat := 0;
    var inSingle, inDouble := false, false;
    for i := 0 to |query|
      invariant !(inSingle && inDouble)
      invariant b + RebindFrom(query[i..], ModeOf(inSingle, inDouble), n) == Rebound(query)
    {
      var ch := query[i];
      RebindStep(b, query, i, ModeOf(inSingle, inDouble), n);
      ghost var piece := b + Piece(ch, ModeOf(inSingle, inDouble), n);
      if inSingle {
        b := b + [ch];
        if ch == '\'' {
          inSingle := false;
        }
      } else if inDouble {
        b := b + [ch];
        if ch == '"' {
          inDouble := false;
        }
      } else if ch == '\'' {
        inSingle := true;
        b := b + [ch];
      } else if ch == '"' {
        inDouble := true;
        b := b + [ch];
      } else if ch == '?' {
        n := n + 1;
        b := b + "$";
        b := b + Decimal(n);
      } else {
        b := b + [ch];
      }
      assert b == piece;
    }
    assert query[|query|..] == "";
    NothingToRebind("", ModeOf(inSingle, inDouble), n);
    return b;
  }

  // ---------- every byte by itself ----------

  /** What byte `i` becomes: the next number if it is a placeholder, itself if not. */
  function Image(q: string, i: nat): string
    requires i < |q|
  {
    if Placeholder(q, i) then "$" + Decimal(|Before(q, i)| + 1) else [q[i]]
  }

  lemma BeforeGrows(q: string, i: nat)
    requires i < |q|
    ensures |Before(q, i + 1)| == |Before(q, i)| + if Placeholder(q, i) then 1 else 0
  {
    assert Before(q, i + 1) == Before(q, i) + if Placeholder(q, i) then {i} else {};
  }

  /** The rewritten query up to byte `i`. */
  function Images(q: string, i: nat): string
    requires i <= |q|
  {
    if i == 0 then "" else Images(q, i - 1) + Image(q, i - 1)
  }

  lemma ImageIsPiece(q: string, i: nat)
    requires i < |q|
    ensures Image(q, i) == Piece(q[i], ModeAt(q, i), |Before(q, i)|)
    ensures ModeAt(q, i + 1) == Next(ModeAt(q, i), q[i])
    ensures |Before(q, i + 1)| == Counted(q[i], ModeAt(q, i), |Before(q, i)|)
  {
    hide Before, Decimal;
    BeforeGrows(q, i);
  }

  lemma {:induction false} SplitsAt(q: string, i: nat)
    requires i <= |q|
    ensures Rebound(q) == Images(q, i) + RebindFrom(q[i..], ModeAt(q, i), |Before(q, i)|)
  {
    hide Before, RebindFrom, ModeAt, Image, Piece, Counted, Next;
    if i == 0 {
      NoneBefore(q);
      assert q[0..] == q;
    } else {
      SplitsAt(q, i - 1);
      ImageIsPiece(q, i - 1);
      RebindStep(Images(q, i - 1), q, i - 1, ModeAt(q, i - 1), |Before(q, i - 1)|);
    }
  }

  lemma NoneBefore(q: string)
    ensures Before(q, 0) == {} && ModeAt(q, 0) == Plain
  {
  }

  /**
   * The result is the bytes' images in order: unquoted placeholders numbered from 1 by how many come
   * before them, all quoted text and every other byte as it was.
   */
  lemma ReboundIsImages(q: string)
    ensures Rebound(q) == Images(q, |q|)
  {
    SplitsAt(q, |q|);
  }

  // ---------- rewriting twice ----------

  lemma {:induction false} PlainPrefixStays(p: string, s: string, n: nat)
    requires forall i :: 0 <= i < |p| ==> p[i] != '?' && p[i] != '\'' && p[i] != '"'
    ensures RebindFrom(p + s, Plain, n) == p + RebindFrom(s, Plain, n)
  {
    if p == "" {
      assert p + s == s;
    } else {
      assert (p + s)[1..] == p[1..] + s;
      PlainPrefixStays(p[1..], s, n);
      assert [p[0]] + (p[1..] + RebindFrom(s, Plain, n)) == p + RebindFrom(s, Plain, n);
    }
  }

  lemma {:induction false} RebindTwice(q: string, mode: Mode, n: nat, m: nat)
    ensures RebindFrom(RebindFrom(q, mode, n), mode, m) == RebindFrom(q, mode, n)
  {
    if q != "" {
      if mode == Plain && q[0] == '?' {
        var p, rest := "$" + Decimal(n + 1), RebindFrom(q[1..], Plain, n + 1);
        PlainPrefixStays(p, rest, m);
        RebindTwice(q[1..], Plain, n + 1, m);
      } else {
        RebindTwice(q[1..], Next(mode, q[0]), n, m);
        var rest := RebindFrom(q[1..], Next(mode, q[0]), n);
        assert ([q[0]] + rest)[1..] == rest;
      }
    }
  }

  /** A rewritten query has no placeholder left. */
  lemma RebindIsIdempotent(q: string)
    ensures Rebound(Rebound(q)) == Rebound(q)
  {
    RebindTwice(q, Plain, 0, 0);
  }

  // ---------- undoing it ----------

  function SkipDigits(s: string): (r: string)
    ensures |r| <= |s|
  {
    if s != "" && IsDigit(s[0]) then SkipDigits(s[1..]) else s
  }

  /** Turns every unquoted "$" with its number back into "?". */
  function Unbind(s: string, mode: Mode): string
    decreases |s|
  {
    if s == "" then ""
    else if mode == Plain && s[0] == '$' && |s| > 1 && IsDigit(s[1]) then "?" + Unbind(SkipDigits(s[1..]), Plain)
    else [s[0]] + Unbind(s[1..], Next(mode, s[0]))
  }

  /** The query without the digits that directly follow an unquoted "?" or "$". */
  function Squashed(q: string, mode: Mode): string
    decreases |q|
  {
    if q == "" then ""
    else if mode == Plain && q[0] in {'?', '$'} && |q| > 1
      && IsDigit(q[1]) then "?" + Squashed(SkipDigits(q[1..]), Plain)
    else [q[0]] + Squashed(q[1..], Next(mode, q[0]))
  }

  lemma {:induction false} SkipNumber(p: string, s: string)
    requires forall i :: 0 <= i < |p| ==> IsDigit(p[i])
    ensures SkipDigits(p + s) == SkipDigits(s)
  {
    if p == "" {
      assert p + s == s;
    } else {
      assert (p + s)[1..] == p[1..] + s;
      SkipNumber(p[1..], s);
    }
  }

  lemma {:induction false} SkipCommutes(q: string, n: nat)
    ensures SkipDigits(RebindFrom(q, Plain, n)) == RebindFrom(SkipDigits(q), Plain, n)
  {
    if q != "" && IsDigit(q[0]) {
      SkipCommutes(q[1..], n);
      assert RebindFrom(q, Plain, n)[1..] == RebindFrom(q[1..], Plain, n);
    }
  }

  lemma {:induction false} UnbindOfRebind(q: string, mode: Mode, n: nat)
    ensures Unbind(RebindFrom(q, mode, n), mode) == Squashed(q, mode)
    decreases |q|
  {
    if q != "" {
      var s := RebindFrom(q, mode, n);
      if mode == Plain && q[0] == '?' {
        var rest := RebindFrom(q[1..], Plain, n + 1);
        assert s[1..] == Decimal(n + 1) + rest;
        SkipNumber(Decimal(n + 1), rest);
        SkipCommutes(q[1..], n + 1);
        UnbindOfRebind(SkipDigits(q[1..]), Plain, n + 1);
      } else {
        var rest := RebindFrom(q[1..], Next(mode, q[0]), n);
        assert s[1..] == rest;
        if mode == Plain && q[0] == '$' && |q| > 1 && IsDigit(q[1]) {
          SkipCommutes(q[1..], n);
          UnbindOfRebind(SkipDigits(q[1..]), Plain, n);
        } else {
          UnbindOfRebind(q[1..], Next(mode, q[0]), n);
        }
      }
    }
  }

  /** No unquoted "?" or "$" is directly followed by a digit. */
  predicate Separated(q: string, mode: Mode) {
    |q| < 2 || (!(mode == Plain && q[0] in {'?', '$'} && IsDigit(q[1])) && Separated(q[1..], Next(mode, q[0])))
  }

  lemma {:induction false} SquashedIff(q: string, mode: Mode)
    ensures |Squashed(q, mode)| <= |q|
    ensures Squashed(q, mode) == q <==> Separated(q, mode)
    decreases |q|
  {
    if q != "" {
      if mode == Plain && q[0] in {'?', '$'} && |q| > 1 && IsDigit(q[1]) {
        SquashedIff(SkipDigits(q[1..]), Plain);
        assert |SkipDigits(q[1..])| < |q[1..]|;
      } else {
        SquashedIff(q[1..], Next(mode, q[0]));
        assert q == [q[0]] + q[1..];
      }
    }
  }

  /**
   * Turning the numbers back restores exactly the queries in which no unquoted "?" or "$" is directly
   * followed by a digit.
   */
  lemma RestoredIff(q: string)
    ensures Unbind(Rebound(q), Plain) == q <==> Separated(q, Plain)
  {
    UnbindOfRebind(q, Plain, 0);
    SquashedIff(q, Plain);
  }
}
