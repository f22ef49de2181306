/**
 * A model of the TXT record value sanitizer of the libdns PowerDNS provider
 * (txtsanitize/txtsanitize.go).  TXTSanitize takes any byte string and
 * returns it enclosed in double quotes, with every embedded double quote
 * escaped by a backslash unless an odd run of backslashes already escapes it.
 *
 * The specification is given by functions over byte sequences; the method
 * `Sanitize` follows the Go code step by step and is proved to compute
 * `Sanitized`.  The promise that the result is a fixed point holds only
 * under a condition (`SanitizedIdempotentIff`); `SanitizedGuarded` and the
 * method `SanitizeGuarded` add that condition to the rewrap and keep the
 * promise on every input.
 */
module TxtSanitize {

  /** A byte of a Go string. */
  newtype byte = b: int | 0 <= b < 0x100

  const Quote: byte := 0x22      // the ASCII double quote
  const Backslash: byte := 0x5C  // the ASCII backslash

  // ---------------------------------------------------------------------
  // The outer quotes
  // ---------------------------------------------------------------------

  /** The positional check: at least two bytes, the first and the last a quote. */
  predicate IsQuoted(s: seq<byte>) {
    |s| >= 2 && s[0] == Quote && s[|s| - 1] == Quote
  }

  /** The content that is scanned: `s` without its outer quotes, if it has them. */
  function Contents(s: seq<byte>): (c: seq<byte>)
    ensures IsQuoted(s) ==> s == [Quote] + c + [Quote]
    ensures !IsQuoted(s) ==> c == s
  {
    if IsQuoted(s) then s[1..|s| - 1] else s
  }

  lemma ContentsOfQuoted(c: seq<byte>)
    ensures IsQuoted([Quote] + c + [Quote])
    ensures Contents([Quote] + c + [Quote]) == c
  {
    var s := [Quote] + c + [Quote];
    assert s[1..|s| - 1] == c;
  }

  // ---------------------------------------------------------------------
  // Searching and counting
  // ---------------------------------------------------------------------

  /** The first position of `b` in `s`, or -1 when there is none (Go's bytes.IndexByte). */
  function IndexByte(s: seq<byte>, b: byte): (r: int)
    ensures -1 <= r < |s|
    ensures r == -1 <==> b !in s
    ensures r != -1 ==> s[r] == b && b !in s[..r]
  {
    if s == [] then -1
    else if s[0] == b then 0
    else
      var k := IndexByte(s[1..], b);
      assert k != -1 ==> s[..k + 1] == [s[0]] + s[1..][..k];
      if k == -1 then -1 else k + 1
  }

  /** The length of the run of backslashes that ends `s`. */
  function BackslashRun(s: seq<byte>): (r: nat)
    ensures r <= |s|
  {
    if s == [] || s[|s| - 1] != Backslash then 0 else 1 + BackslashRun(s[..|s| - 1])
  }

  /** The run is maximal: its bytes are backslashes and the byte before it is not. */
  lemma {:induction false} BackslashRunMaximal(s: seq<byte>)
    ensures forall i :: |s| - BackslashRun(s) <= i < |s| ==> s[i] == Backslash
    ensures BackslashRun(s) < |s| ==> s[|s| - 1 - BackslashRun(s)] != Backslash
  {
    if s != [] && s[|s| - 1] == Backslash {
      var p := s[..|s| - 1];
      BackslashRunMaximal(p);
      assert forall i :: 0 <= i < |p| ==> s[i] == p[i];
    }
  }

  /** The run is determined by where it stops. */
  lemma BackslashRunIs(s: seq<byte>, k: nat)
    requires k <= |s|
    requires forall i :: |s| - k <= i < |s| ==> s[i] == Backslash
    requires k < |s| ==> s[|s| - 1 - k] != Backslash
    ensures BackslashRun(s) == k
  {
    BackslashRunMaximal(s);
  }

  /** A run cannot reach back past a byte that is not a backslash. */
  lemma BackslashRunAfter(a: seq<byte>, t: seq<byte>)
    requires a != [] && a[|a| - 1] != Backslash
    ensures BackslashRun(a + t) == BackslashRun(t)
  {
    var k := BackslashRun(t);
    var s := a + t;
    BackslashRunMaximal(t);
    assert forall i :: |s| - k <= i < |s| ==> s[i] == t[i - |a|];
    if k < |t| {
      assert s[|s| - 1 - k] == t[|t| - 1 - k];
    } else {
      assert s[|s| - 1 - k] == a[|a| - 1];
    }
    BackslashRunIs(s, k);
  }

  /** One more backslash lengthens the run by one. */
  lemma BackslashRunSnoc(a: seq<byte>)
    ensures BackslashRun(a + [Backslash]) == BackslashRun(a) + 1
  {
    assert (a + [Backslash])[..|a|] == a;
  }

  // ---------------------------------------------------------------------
  // The scan: escaping the embedded quotes
  // ---------------------------------------------------------------------

  /**
   * A quote that follows `p` is not yet escaped when the backslashes right
   * before it come in an even number (none included): pairs of backslashes
   * escape each other.
   */
  predicate Unescaped(p: seq<byte>) {
    BackslashRun(p) % 2 == 0
  }

  /** One more backslash flips whether a following quote is escaped. */
  lemma UnescapedSnoc(p: seq<byte>)
    ensures Unescaped(p + [Backslash]) <==> !Unescaped(p)
  {
    BackslashRunSnoc(p);
  }

  /** The number of quotes of `c` that the scan escapes. */
  function NewlyEscaped(c: seq<byte>): nat
  {
    if c == [] then 0
    else
      var p := c[..|c| - 1];
      NewlyEscaped(p) + (if c[|c| - 1] == Quote && Unescaped(p) then 1 else 0)
  }

  /** The scan escapes at most as many quotes as the content holds. */
  lemma {:induction false} NewlyEscapedBound(c: seq<byte>)
    ensures NewlyEscaped(c) <= multiset(c)[Quote]
  {
    if c != [] {
      var p := c[..|c| - 1];
      assert c == p + [c[|c| - 1]];
      NewlyEscapedBound(p);
    }
  }

  /**
   * The buffer the scan builds: `c` with one backslash put before each
   * quote that is not yet escaped.
   */
  function EscapeQuotes(c: seq<byte>): (r: seq<byte>)
    ensures |r| == |c| + NewlyEscaped(c)
  {
    if c == [] then []
    else
      var p, b := c[..|c| - 1], c[|c| - 1];
      EscapeQuotes(p) + (if b == Quote && Unescaped(p) then [Backslash, Quote] else [b])
  }

  /** Appending bytes without a quote appends them to the buffer verbatim. */
  lemma {:induction false} EscapeAppendText(a: seq<byte>, t: seq<byte>)
    requires Quote !in t
    ensures EscapeQuotes(a + t) == EscapeQuotes(a) + t
    ensures NewlyEscaped(a + t) == NewlyEscaped(a)
  {
    if t == [] {
      assert a + t == a;
    } else {
      var t', b := t[..|t| - 1], t[|t| - 1];
      assert t == t' + [b];
      assert (a + t)[..|a + t| - 1] == a + t';
      EscapeAppendText(a, t');
    }
  }

  /** Appending a quote appends it, escaped when the run before it is even. */
  lemma EscapeAppendQuote(a: seq<byte>)
    ensures EscapeQuotes(a + [Quote])
         == EscapeQuotes(a) + (if Unescaped(a) then [Backslash, Quote] else [Quote])
    ensures NewlyEscaped(a + [Quote]) == NewlyEscaped(a) + (if Unescaped(a) then 1 else 0)
  {
    assert (a + [Quote])[..|a|] == a;
  }

  /** The scan keeps the trailing run of backslashes as it is. */
  lemma {:induction false} EscapePreservesRun(c: seq<byte>)
    ensures BackslashRun(EscapeQuotes(c)) == BackslashRun(c)
  {
    if c != [] {
      var p, b := c[..|c| - 1], c[|c| - 1];
      assert c == p + [b];
      EscapePreservesRun(p);
      if b == Backslash {
        BackslashRunSnoc(p);
        BackslashRunSnoc(EscapeQuotes(p));
      }
    }
  }

  /** Every quote of `s` is preceded by an odd run of backslashes. */
  predicate AllQuotesEscaped(s: seq<byte>) {
    if s == [] then true
    else
      var p := s[..|s| - 1];
      AllQuotesEscaped(p) && (s[|s| - 1] == Quote ==> !Unescaped(p))
  }

  lemma AllQuotesEscapedSnoc(p: seq<byte>, b: byte)
    ensures AllQuotesEscaped(p + [b]) <==> AllQuotesEscaped(p) && (b == Quote ==> !Unescaped(p))
  {
    assert (p + [b])[..|p|] == p;
  }

  /** The same property, position by position. */
  lemma {:induction false} AllQuotesEscapedPointwise(s: seq<byte>)
    ensures AllQuotesEscaped(s)
        <==> forall i :: 0 <= i < |s| && s[i] == Quote ==> !Unescaped(s[..i])
  {
    if s != [] {
      var p := s[..|s| - 1];
      AllQuotesEscapedPointwise(p);
      assert forall i :: 0 <= i < |p| ==> s[i] == p[i] && s[..i] == p[..i];
    }
  }

  /** The scan's last step, on a byte appended to `p`. */
  lemma EscapeSnoc(p: seq<byte>, b: byte)
    ensures EscapeQuotes(p + [b])
         == EscapeQuotes(p) + (if b == Quote && Unescaped(p) then [Backslash, Quote] else [b])
  {
    assert (p + [b])[..|p|] == p;
  }

  /** An escaped quote put after an even run keeps every quote escaped. */
  lemma AllQuotesEscapedEscapedQuote(e: seq<byte>)
    requires AllQuotesEscaped(e) && Unescaped(e)
    ensures AllQuotesEscaped(e + [Backslash, Quote])
  {
    var v := e + [Backslash];
    AllQuotesEscapedSnoc(e, Backslash);
    UnescapedSnoc(e);
    AllQuotesEscapedSnoc(v, Quote);
    assert v + [Quote] == e + [Backslash, Quote];
  }

  /** After the scan, every quote in the buffer is escaped. */
  lemma {:induction false} EscapeAllQuotesEscaped(c: seq<byte>)
    ensures AllQuotesEscaped(EscapeQuotes(c))
  {
    if c != [] {
      var p, b := c[..|c| - 1], c[|c| - 1];
      assert c == p + [b];
      EscapeSnoc(p, b);
      EscapeAllQuotesEscaped(p);
      EscapePreservesRun(p);
      if b == Quote && Unescaped(p) {
        AllQuotesEscapedEscapedQuote(EscapeQuotes(p));
      } else {
        AllQuotesEscapedSnoc(EscapeQuotes(p), b);
      }
    }
  }

  /**
   * The scan changes nothing exactly when every quote is already escaped;
   * then it escapes no quote at all.
   */
  lemma {:induction false} EscapeFixesEscaped(c: seq<byte>)
    ensures AllQuotesEscaped(c) <==> NewlyEscaped(c) == 0
    ensures AllQuotesEscaped(c) ==> EscapeQuotes(c) == c
  {
    if c != [] {
      var p, b := c[..|c| - 1], c[|c| - 1];
      assert c == p + [b];
      EscapeFixesEscaped(p);
      if AllQuotesEscaped(c) {
        AllQuotesEscapedSnoc(p, b);
      } else if NewlyEscaped(c) == 0 {
        AllQuotesEscapedSnoc(p, b);
      }
    }
  }

  /** Escaping twice is escaping once, and the second pass escapes nothing. */
  lemma EscapeIdempotent(c: seq<byte>)
    ensures EscapeQuotes(EscapeQuotes(c)) == EscapeQuotes(c)
    ensures NewlyEscaped(EscapeQuotes(c)) == 0
  {
    EscapeAllQuotesEscaped(c);
    EscapeFixesEscaped(EscapeQuotes(c));
  }

  // ---------------------------------------------------------------------
  // A pointwise description of the scan
  // ---------------------------------------------------------------------

  /** Position `i` of `c` gets a backslash: a quote after an even run. */
  predicate NeedsEscape(c: seq<byte>, i: nat)
    requires i < |c|
  {
    c[i] == Quote && Unescaped(c[..i])
  }

  /** For each position of `c`, whether the scan escapes it. */
  function Marks(c: seq<byte>): (m: seq<bool>)
    ensures |m| == |c|
    ensures forall i :: 0 <= i < |c| ==> (m[i] <==> NeedsEscape(c, i))
  {
    seq(|c|, i requires 0 <= i < |c| => NeedsEscape(c, i))
  }

  /** `c` with one backslash inserted before each position that `m` marks. */
  function InsertBackslashes(c: seq<byte>, m: seq<bool>): seq<byte>
    requires |m| == |c|
  {
    if c == [] then []
    else
      var n := |c| - 1;
      InsertBackslashes(c[..n], m[..n]) + (if m[n] then [Backslash, c[n]] else [c[n]])
  }

  /** The number of marked positions. */
  function CountMarks(m: seq<bool>): nat
  {
    if m == [] then 0 else CountMarks(m[..|m| - 1]) + (if m[|m| - 1] then 1 else 0)
  }

  /**
   * The buffer is the content with one backslash inserted before exactly
   * the quotes that follow an even run, all other bytes kept in order, and
   * the count is the number of backslashes inserted.
   */
  lemma {:induction false} EscapeIsInsertion(c: seq<byte>)
    ensures EscapeQuotes(c) == InsertBackslashes(c, Marks(c))
    ensures NewlyEscaped(c) == CountMarks(Marks(c))
  {
    if c != [] {
      var n := |c| - 1;
      var p := c[..n];
      forall i | 0 <= i < n ensures Marks(c)[i] == Marks(p)[i] {
        assert c[..i] == p[..i];
      }
      assert Marks(c)[..n] == Marks(p);
      EscapeIsInsertion(p);
    }
  }

  /**
   * `r` with the backslash before each position that `m` marks taken out
   * again, reading `r` and `m` from the end.
   */
  function RemoveBackslashes(r: seq<byte>, m: seq<bool>): seq<byte>
    decreases |m|
  {
    if m == [] || r == [] then []
    else
      var n := |m| - 1;
      if m[n] && |r| >= 2 then RemoveBackslashes(r[..|r| - 2], m[..n]) + [r[|r| - 1]]
      else RemoveBackslashes(r[..|r| - 1], m[..n]) + [r[|r| - 1]]
  }

  /** Taking the inserted backslashes out again gives back the original bytes. */
  lemma {:induction false} RemoveInserted(c: seq<byte>, m: seq<bool>)
    requires |m| == |c|
    ensures RemoveBackslashes(InsertBackslashes(c, m), m) == c
  {
    if c != [] {
      var n := |c| - 1;
      var x := InsertBackslashes(c[..n], m[..n]);
      var r := InsertBackslashes(c, m);
      RemoveInserted(c[..n], m[..n]);
      if m[n] {
        assert r == x + [Backslash, c[n]];
        assert r[..|r| - 2] == x && r[|r| - 1] == c[n];
      } else {
        assert r == x + [c[n]];
        assert r[..|r| - 1] == x && r[|r| - 1] == c[n];
      }
      assert RemoveBackslashes(r, m) == RemoveBackslashes(x, m[..n]) + [c[n]];
      assert c == c[..n] + [c[n]];
    }
  }

  /** Removing the backslashes the scan inserted restores the content. */
  lemma EscapeRemovable(c: seq<byte>)
    ensures RemoveBackslashes(EscapeQuotes(c), Marks(c)) == c
  {
    EscapeIsInsertion(c);
    RemoveInserted(c, Marks(c));
  }

  // ---------------------------------------------------------------------
  // The result
  // ---------------------------------------------------------------------

  /**
   * The extra `\"` wrap: the input was quoted and the scan escaped a
   * positive, even number of quotes.
   */
  predicate Rewraps(s: seq<byte>) {
    var k := NewlyEscaped(Contents(s));
    IsQuoted(s) && k > 0 && k % 2 == 0
  }

  /** What TXTSanitize returns for `s`. */
  function Sanitized(s: seq<byte>): (r: seq<byte>)
    ensures |r| >= 2 && r[0] == Quote && r[|r| - 1] == Quote
  {
    var body := EscapeQuotes(Contents(s));
    [Quote] + (if Rewraps(s) then [Backslash, Quote] + body + [Backslash, Quote] else body) + [Quote]
  }

  /** On a quoted value, the result wraps the scan of the content between the quotes. */
  lemma SanitizedQuoted(c: seq<byte>)
    ensures var k := NewlyEscaped(c);
            Sanitized([Quote] + c + [Quote])
            == [Quote]
               + (if k > 0 && k % 2 == 0 then [Backslash, Quote] + EscapeQuotes(c) + [Backslash, Quote]
                  else EscapeQuotes(c))
               + [Quote]
  {
    ContentsOfQuoted(c);
  }

  /** The length of the result: the content, the inserted backslashes, the quotes added. */
  lemma SanitizedLength(s: seq<byte>)
    ensures |Sanitized(s)|
         == |s| - (if IsQuoted(s) then 2 else 0) + NewlyEscaped(Contents(s)) + 2
            + (if Rewraps(s) then 4 else 0)
  {
  }

  /** Escaped quotes stay escaped behind a byte that is not a backslash. */
  lemma {:induction false} AllQuotesEscapedAppend(a: seq<byte>, e: seq<byte>)
    requires a != [] && a[|a| - 1] != Backslash
    requires AllQuotesEscaped(a) && AllQuotesEscaped(e)
    ensures AllQuotesEscaped(a + e)
  {
    if e == [] {
      assert a + e == a;
    } else {
      var e', b := e[..|e| - 1], e[|e| - 1];
      assert e == e' + [b] && a + e == (a + e') + [b];
      AllQuotesEscapedSnoc(e', b);
      AllQuotesEscapedAppend(a, e');
      BackslashRunAfter(a, e');
      AllQuotesEscapedSnoc(a + e', b);
    }
  }

  /** The `\"` the rewrap puts in front is itself escaped. */
  lemma RewrapHeadEscaped()
    ensures AllQuotesEscaped([Backslash, Quote])
  {
    assert [] + [Backslash] == [Backslash];
    AllQuotesEscapedSnoc([], Backslash);
    UnescapedSnoc([]);
    AllQuotesEscapedSnoc([Backslash], Quote);
  }

  /** The rewrapped body up to its closing quote keeps the buffer's quotes escaped. */
  lemma RewrapOpenEscaped(e: seq<byte>)
    requires AllQuotesEscaped(e)
    ensures AllQuotesEscaped([Backslash, Quote] + e + [Backslash])
  {
    RewrapHeadEscaped();
    AllQuotesEscapedAppend([Backslash, Quote], e);
    AllQuotesEscapedSnoc([Backslash, Quote] + e, Backslash);
  }

  /** The rewrapped body up to its closing quote: `\"`, the buffer and one backslash. */
  lemma RewrapOpen(e: seq<byte>)
    ensures BackslashRun([Backslash, Quote] + e + [Backslash]) == BackslashRun(e) + 1
    ensures Unescaped([Backslash, Quote] + e + [Backslash]) <==> BackslashRun(e) % 2 == 1
    ensures AllQuotesEscaped(e) ==> AllQuotesEscaped([Backslash, Quote] + e + [Backslash])
  {
    BackslashRunAfter([Backslash, Quote], e);
    BackslashRunSnoc([Backslash, Quote] + e);
    UnescapedSnoc([Backslash, Quote] + e);
    if AllQuotesEscaped(e) {
      RewrapOpenEscaped(e);
    }
  }

  /** The rewrapped body has all its quotes escaped exactly when the body ends in an even run. */
  lemma RewrapAllQuotesEscaped(e: seq<byte>)
    requires AllQuotesEscaped(e)
    ensures AllQuotesEscaped([Backslash, Quote] + e + [Backslash, Quote])
        <==> BackslashRun(e) % 2 == 0
  {
    var v := [Backslash, Quote] + e + [Backslash];
    assert [Backslash, Quote] + e + [Backslash, Quote] == v + [Quote];
    RewrapOpen(e);
    AllQuotesEscapedSnoc(v, Quote);
  }

  /**
   * Sanitizing a sanitized value changes it exactly when the value was
   * rewrapped around a buffer that ends in an odd run of backslashes: the
   * appended `\"` then follows an even run, and the second pass escapes it.
   */
  lemma SanitizedIdempotentIff(s: seq<byte>)
    ensures Sanitized(Sanitized(s)) == Sanitized(s)
        <==> !Rewraps(s) || BackslashRun(EscapeQuotes(Contents(s))) % 2 == 0
  {
    var e := EscapeQuotes(Contents(s));
    var w := if Rewraps(s) then [Backslash, Quote] + e + [Backslash, Quote] else e;
    var y := Sanitized(s);
    assert y == [Quote] + w + [Quote];
    ContentsOfQuoted(w);
    EscapeAllQuotesEscaped(Contents(s));
    if Rewraps(s) {
      RewrapAllQuotesEscaped(e);
    }
    EscapeFixesEscaped(w);
    if AllQuotesEscaped(w) {
      assert Sanitized(y) == y;
    } else {
      SanitizedLength(y);
      assert |Sanitized(y)| > |y|;
    }
  }

  /**
   * On a value that is not quoted, the result is the scan of the whole
   * value between quotes, and it is a fixed point.
   */
  lemma SanitizedUnquoted(s: seq<byte>)
    requires !IsQuoted(s)
    ensures Sanitized(s) == [Quote] + EscapeQuotes(s) + [Quote]
    ensures Sanitized(Sanitized(s)) == Sanitized(s)
  {
    SanitizedIdempotentIff(s);
  }

  /**
   * On a quoted value whose scan escapes no quote or an odd number of them,
   * the result is the scan of the content between quotes, and it is a fixed
   * point.
   */
  lemma SanitizedQuotedPlain(c: seq<byte>)
    requires NewlyEscaped(c) == 0 || NewlyEscaped(c) % 2 == 1
    ensures Sanitized([Quote] + c + [Quote]) == [Quote] + EscapeQuotes(c) + [Quote]
    ensures Sanitized(Sanitized([Quote] + c + [Quote])) == Sanitized([Quote] + c + [Quote])
  {
    ContentsOfQuoted(c);
    SanitizedIdempotentIff([Quote] + c + [Quote]);
  }

  /**
   * On a quoted value whose scan escapes an even, positive number of quotes,
   * the result is rewrapped in `\"`, and it is a fixed point exactly when the
   * content does not end in an odd run of backslashes.
   */
  lemma SanitizedQuotedRewrapped(c: seq<byte>)
    requires NewlyEscaped(c) > 0 && NewlyEscaped(c) % 2 == 0
    ensures Sanitized([Quote] + c + [Quote])
         == [Quote] + ([Backslash, Quote] + EscapeQuotes(c) + [Backslash, Quote]) + [Quote]
    ensures Sanitized(Sanitized([Quote] + c + [Quote])) == Sanitized([Quote] + c + [Quote])
        <==> BackslashRun(c) % 2 == 0
  {
    ContentsOfQuoted(c);
    EscapePreservesRun(c);
    SanitizedIdempotentIff([Quote] + c + [Quote]);
  }

  lemma RewrapRegroup(e: seq<byte>)
    ensures [Quote] + ([Backslash, Quote] + e + [Backslash, Quote]) + [Quote]
         == [Quote] + (([Backslash, Quote] + e + [Backslash]) + [Quote]) + [Quote]
    ensures [Quote] + ([Backslash, Quote] + e + [Backslash, Backslash, Quote]) + [Quote]
         == [Quote] + (([Backslash, Quote] + e + [Backslash]) + [Backslash, Quote]) + [Quote]
  {
  }

  /** Sanitizing a quoted value whose last quote follows an even run. */
  lemma ResanitizeUnescapedLast(v: seq<byte>)
    requires AllQuotesEscaped(v) && Unescaped(v)
    ensures Sanitized([Quote] + (v + [Quote]) + [Quote]) == [Quote] + (v + [Backslash, Quote]) + [Quote]
  {
    var c := v + [Quote];
    EscapeFixesEscaped(v);
    EscapeAppendQuote(v);
    ContentsOfQuoted(c);
    assert NewlyEscaped(c) == 1;
    assert !Rewraps([Quote] + c + [Quote]);
  }

  /**
   * Sanitizing again a value rewrapped around a buffer that ends in an odd
   * run of backslashes escapes its closing quote once more.
   */
  lemma ResanitizeOddRewrap(e: seq<byte>)
    requires AllQuotesEscaped(e) && BackslashRun(e) % 2 == 1
    ensures Sanitized([Quote] + ([Backslash, Quote] + e + [Backslash, Quote]) + [Quote])
         == [Quote] + ([Backslash, Quote] + e + [Backslash, Backslash, Quote]) + [Quote]
  {
    var v := [Backslash, Quote] + e + [Backslash];
    RewrapOpen(e);
    ResanitizeUnescapedLast(v);
    RewrapRegroup(e);
  }

  /**
   * Where idempotence fails: a quoted value that is rewrapped around a
   * buffer ending in an odd run of backslashes comes back from a second
   * pass with one more backslash before its closing `\"`.
   */
  lemma ResanitizeRewrappedOddRun(c: seq<byte>)
    requires NewlyEscaped(c) > 0 && NewlyEscaped(c) % 2 == 0 && BackslashRun(c) % 2 == 1
    ensures Sanitized(Sanitized([Quote] + c + [Quote]))
         == [Quote] + ([Backslash, Quote] + EscapeQuotes(c) + [Backslash, Backslash, Quote]) + [Quote]
  {
    SanitizedQuotedRewrapped(c);
    EscapeAllQuotesEscaped(c);
    EscapePreservesRun(c);
    ResanitizeOddRewrap(EscapeQuotes(c));
  }

  // ---------------------------------------------------------------------
  // A rewrap that keeps the idempotence promise
  // ---------------------------------------------------------------------

  /** The rewrap only when the buffer does not end in an odd run of backslashes. */
  predicate RewrapsGuarded(s: seq<byte>) {
    Rewraps(s) && BackslashRun(EscapeQuotes(Contents(s))) % 2 == 0
  }

  /** TXTSanitize with the rewrap guarded by `RewrapsGuarded`. */
  function SanitizedGuarded(s: seq<byte>): (r: seq<byte>)
    ensures |r| >= 2 && r[0] == Quote && r[|r| - 1] == Quote
  {
    var body := EscapeQuotes(Contents(s));
    [Quote] + (if RewrapsGuarded(s) then [Backslash, Quote] + body + [Backslash, Quote] else body) + [Quote]
  }

  /** The guarded version is idempotent on every input. */
  lemma SanitizedGuardedIdempotent(s: seq<byte>)
    ensures SanitizedGuarded(SanitizedGuarded(s)) == SanitizedGuarded(s)
  {
    var e := EscapeQuotes(Contents(s));
    var w := if RewrapsGuarded(s) then [Backslash, Quote] + e + [Backslash, Quote] else e;
    var y := SanitizedGuarded(s);
    assert y == [Quote] + w + [Quote];
    ContentsOfQuoted(w);
    EscapeAllQuotesEscaped(Contents(s));
    if RewrapsGuarded(s) {
      RewrapAllQuotesEscaped(e);
    }
    EscapeFixesEscaped(w);
  }

  /** The guard changes the result exactly on the inputs where idempotence fails. */
  lemma SanitizedGuardedAgrees(s: seq<byte>)
    ensures SanitizedGuarded(s) == Sanitized(s) <==> Sanitized(Sanitized(s)) == Sanitized(s)
  {
    SanitizedIdempotentIff(s);
    if Rewraps(s) && !RewrapsGuarded(s) {
      assert |SanitizedGuarded(s)| + 4 == |Sanitized(s)|;
    }
  }

  // ---------------------------------------------------------------------
  // The imperative code
  // ---------------------------------------------------------------------

  /** The scan over the bytes `c[i..i + k]`, which hold no quote, copies them. */
  lemma ScanText(c: seq<byte>, i: nat, k: nat)
    requires i + k <= |c| && Quote !in c[i..][..k]
    ensures EscapeQuotes(c[..i + k]) == EscapeQuotes(c[..i]) + c[i..i + k]
    ensures NewlyEscaped(c[..i + k]) == NewlyEscaped(c[..i])
  {
    assert c[i..][..k] == c[i..i + k];
    EscapeAppendText(c[..i], c[i..i + k]);
    assert c[..i] + c[i..i + k] == c[..i + k];
  }

  /** The scan over the quote `c[i]`. */
  lemma ScanQuote(c: seq<byte>, i: nat)
    requires i < |c| && c[i] == Quote
    ensures EscapeQuotes(c[..i + 1])
         == EscapeQuotes(c[..i]) + (if Unescaped(c[..i]) then [Backslash, Quote] else [Quote])
    ensures NewlyEscaped(c[..i + 1]) == NewlyEscaped(c[..i]) + (if Unescaped(c[..i]) then 1 else 0)
  {
    EscapeAppendQuote(c[..i]);
    assert c[..i] + [Quote] == c[..i + 1];
  }

  /** One step of the backward walk over a backslash. */
  lemma WalkBackslash(c: seq<byte>, j: nat)
    requires j < |c| && c[j] == Backslash
    ensures BackslashRun(c[..j + 1]) == BackslashRun(c[..j]) + 1
  {
    assert c[..j + 1] == c[..j] + [Backslash];
    BackslashRunSnoc(c[..j]);
  }

  /** What the outer loop has built once it has scanned `c[..i]`. */
  predicate Scanned(c: seq<byte>, i: nat, bldr: seq<byte>, escaped: nat) {
    i <= |c| && bldr == EscapeQuotes(c[..i]) && escaped == NewlyEscaped(c[..i])
  }

  /**
   * One round of the outer loop: the bytes `c[i..i + k]` hold no quote,
   * `c[i + k]` is a quote, and `n` backslashes come right before it.
   */
  lemma ScanRound(c: seq<byte>, i: nat, k: nat, n: nat, bldr: seq<byte>, escaped: nat)
    requires Scanned(c, i, bldr, escaped)
    requires i + k < |c| && Quote !in c[i..][..k] && c[i + k] == Quote
    requires n == BackslashRun(c[..i + k])
    ensures n % 2 == 0 ==> Scanned(c, i + k + 1, bldr + c[i..i + k] + [Backslash] + [Quote], escaped + 1)
    ensures n % 2 != 0 ==> Scanned(c, i + k + 1, bldr + c[i..i + k] + [Quote], escaped)
  {
    ScanText(c, i, k);
    ScanQuote(c, i + k);
    var t := bldr + c[i..i + k];
    assert EscapeQuotes(c[..i + k]) == t;
    if n % 2 == 0 {
      assert Unescaped(c[..i + k]);
      assert t + [Backslash] + [Quote] == t + [Backslash, Quote];
    } else {
      assert !Unescaped(c[..i + k]);
      assert EscapeQuotes(c[..i + k + 1]) == t + [Quote];
      assert NewlyEscaped(c[..i + k + 1]) == escaped;
    }
  }

  /** The last round of the outer loop: no quote is left in `c[i..]`. */
  lemma ScanRest(c: seq<byte>, i: nat, bldr: seq<byte>, escaped: nat)
    requires Scanned(c, i, bldr, escaped) && Quote !in c[i..]
    ensures bldr + c[i..] == EscapeQuotes(c) && escaped == NewlyEscaped(c)
  {
    EscapeAppendText(c[..i], c[i..]);
    assert c[..i] + c[i..] == c;
  }

  /**
   * The inner loop of TXTSanitize: count the backslashes right before
   * position `ind`, walking backwards until a byte that is not one or the
   * start of the content.
   */
  method CountBackslashes(contents: seq<byte>, ind: nat) returns (escCt: nat)
    requires ind <= |contents|
    ensures escCt == BackslashRun(contents[..ind])
  {
    escCt := 0;
    var j := ind - 1;
    while j >= 0 && contents[j] == Backslash
      invariant -1 <= j < ind
      invariant escCt == ind - 1 - j
      invariant BackslashRun(contents[..ind]) == escCt + BackslashRun(contents[..j + 1])
    {
      WalkBackslash(contents, j);
      escCt := escCt + 1;
      j := j - 1;
    }
  }

  /**
   * The outer loop of TXTSanitize: find each quote with IndexByte, copy the
   * bytes before it into `bldr`, and escape it when the backslashes before
   * it come in an even number, counting the quotes escaped in `escaped`.
   */
  method Scan(contents: seq<byte>) returns (bldr: seq<byte>, escaped: nat)
    ensures bldr == EscapeQuotes(contents)
    ensures escaped == NewlyEscaped(contents)
  {
    escaped := 0;
    bldr := [];
    var ind := 0;
    while ind < |contents|
      invariant Scanned(contents, ind, bldr, escaped)
    {
      var tInd := IndexByte(contents[ind..], Quote);
      if tInd == -1 {
        ScanRest(contents, ind, bldr, escaped);
        bldr := bldr + contents[ind..];
        return;
      }
      ghost var start, before := ind, bldr;
      assert contents[start..][tInd] == contents[start + tInd];
      bldr := bldr + contents[ind..ind + tInd];
      ind := ind + tInd;

      var escCt := CountBackslashes(contents, ind);
      ScanRound(contents, start, tInd, escCt, before, escaped);
      if escCt % 2 == 0 {
        escaped := escaped + 1;
        bldr := bldr + [Backslash];
      }
      bldr := bldr + [Quote];
      ind := ind + 1;
    }
    assert contents[..ind] == contents;
  }

  /** The outer-quote check and strip at the start of TXTSanitize. */
  method StripQuotes(input: seq<byte>) returns (quoted: bool, contents: seq<byte>)
    ensures quoted == IsQuoted(input) && contents == Contents(input)
  {
    quoted, contents := false, input;
    if |input| >= 2 {
      quoted := contents[0] == Quote && contents[|input| - 1] == Quote;
    }
    if quoted {
      contents := contents[1..|input| - 1];
    }
  }

  /** The final quoting of TXTSanitize: the buffer between quotes, inside `\"` when `rewrap`. */
  method Enclose(rewrap: bool, bldr: seq<byte>) returns (output: seq<byte>)
    ensures |output| >= 2
    ensures output[..1] == [Quote] && output[|output| - 1..] == [Quote]
    ensures rewrap ==> output[1..|output| - 1] == [Backslash, Quote] + bldr + [Backslash, Quote]
    ensures !rewrap ==> output[1..|output| - 1] == bldr
  {
    var out: seq<byte> := [Quote];
    if rewrap {
      out := out + [Backslash, Quote];
      out := out + bldr;
      out := out + [Backslash, Quote];
    } else {
      out := out + bldr;
    }
    out := out + [Quote];
    output := out;
  }

  /**
   * TXTSanitize: strip the outer quotes if the input has them, scan the
   * content, and quote the buffer, rewrapped in `\"` when the input was
   * quoted and an even, positive number of quotes was escaped.
   */
  method Sanitize(input: seq<byte>) returns (output: seq<byte>)
    ensures output == Sanitized(input)
  {
    var quoted, contents := StripQuotes(input);
    var bldr, escaped := Scan(contents);
    output := Enclose(quoted && escaped > 0 && escaped % 2 == 0, bldr);
    EncloseIs(output);
  }

  /** TXTSanitize with the rewrap also requiring an even run at the end of the buffer. */
  method SanitizeGuarded(input: seq<byte>) returns (output: seq<byte>)
    ensures output == SanitizedGuarded(input)
  {
    var quoted, contents := StripQuotes(input);
    var bldr, escaped := Scan(contents);
    var run := CountBackslashes(bldr, |bldr|);
    assert bldr[..|bldr|] == bldr;
    output := Enclose(quoted && escaped > 0 && escaped % 2 == 0 && run % 2 == 0, bldr);
    EncloseIs(output);
  }

  /** A value is its first byte, its middle and its last byte. */
  lemma EncloseIs(s: seq<byte>)
    requires |s| >= 2
    ensures s == s[..1] + s[1..|s| - 1] + s[|s| - 1..]
  {
  }
}
