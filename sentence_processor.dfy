/** The incremental sentence splitter: a text buffer that collects streamed
    chunks and hands back a sentence for each terminator character found. */
module SentenceProcessor {
  import opened Text

  /** The terminators a processor uses unless told otherwise. */
  const DefaultEnders: string := ".?!"

  /** No character of `s` is a terminator. */
  predicate NoEnder(s: string, enders: string)
  {
    forall k :: 0 <= k < |s| ==> s[k] !in enders
  }

  /** No terminator is a whitespace character. */
  predicate NonSpaceEnders(enders: string)
  {
    forall k :: 0 <= k < |enders| ==> !IsSpace(enders[k])
  }

  /** Position of the last terminator among the first `n` characters of `s`,
      or -1 when there is none. */
  function LastEnderBefore(s: string, enders: string, n: nat): (r: int)
    requires n <= |s|
    ensures -1 <= r < n
    ensures r >= 0 ==> s[r] in enders
  {
    if n == 0 then -1
    else if s[n - 1] in enders then n - 1
    else LastEnderBefore(s, enders, n - 1)
  }

  /** Position of the last terminator in `s`, or -1 when there is none. */
  function LastEnder(s: string, enders: string): (r: int)
  {
    LastEnderBefore(s, enders, |s|)
  }

  /** No terminator among the first `n` characters follows the one
      LastEnderBefore finds. */
  lemma {:induction false} LastEnderIsLast(s: string, enders: string, n: nat)
    requires n <= |s|
    ensures forall k :: LastEnderBefore(s, enders, n) < k < n ==> s[k] !in enders
  {
    if n > 0 && s[n - 1] !in enders {
      LastEnderIsLast(s, enders, n - 1);
    }
  }

  /** Number of terminator characters in `s`. */
  function EnderCount(s: string, enders: string): (n: nat)
    ensures n <= |s|
    ensures n == 0 <==> NoEnder(s, enders)
  {
    if s == [] then 0
    else EnderCount(s[..|s| - 1], enders) + (if s[|s| - 1] in enders then 1 else 0)
  }

  /** The text kept in the buffer after a scan of `acc`: the suffix after the
      last terminator, or all of `acc` when it holds none. */
  function Remainder(acc: string, enders: string): (rest: string)
  {
    var last := LastEnder(acc, enders);
    if last == -1 then acc else acc[last + 1..]
  }

  /** The remainder is the longest terminator-free suffix of `acc`: a suffix
      with no terminator, preceded by a terminator unless it is all of `acc`.
      Nothing is lost across the cut. */
  lemma RemainderSpec(acc: string, enders: string)
    ensures var r := Remainder(acc, enders);
      NoEnder(r, enders) &&
      |r| <= |acc| && acc == acc[..|acc| - |r|] + r &&
      (|r| < |acc| ==> acc[|acc| - |r| - 1] in enders) &&
      (NoEnder(acc, enders) ==> r == acc)
  {
    var last := LastEnder(acc, enders);
    var r := Remainder(acc, enders);
    LastEnderIsLast(acc, enders, |acc|);
    if last == -1 {
      assert r == acc;
      assert acc[..0] + acc == acc;
    } else {
      assert r == acc[last + 1..];
      assert |acc| - |r| - 1 == last;
      assert acc[..last + 1] + r == acc;
      assert forall k :: 0 <= k < |r| ==> r[k] == acc[last + 1 + k];
    }
  }

  /** Position `i` of `acc` closes a sentence: it holds a terminator and the
      prefix up to and including it is not all whitespace, so that its
      stripped form is not empty (StripEmpty). */
  predicate Emits(acc: string, enders: string, i: nat)
    requires i < |acc|
  {
    acc[i] in enders && !AllSpace(acc[..i + 1])
  }

  /** The positions below `n` at which a scan of `acc` emits a sentence, in
      increasing order, each exactly once. */
  function SentenceEnds(acc: string, enders: string, n: nat): (ps: seq<nat>)
    requires n <= |acc|
    ensures |ps| <= n
    ensures forall k :: 0 <= k < |ps| ==> ps[k] < n && Emits(acc, enders, ps[k])
    ensures forall k, l :: 0 <= k < l < |ps| ==> ps[k] < ps[l]
  {
    if n == 0 then []
    else SentenceEnds(acc, enders, n - 1) + (if Emits(acc, enders, n - 1) then [n - 1] else [])
  }

  /** SentenceEnds misses no emitting position. */
  lemma {:induction false} SentenceEndsComplete(acc: string, enders: string, n: nat, i: nat)
    requires i < n <= |acc| && Emits(acc, enders, i)
    ensures i in SentenceEnds(acc, enders, n)
  {
    if i < n - 1 {
      SentenceEndsComplete(acc, enders, n - 1, i);
    }
  }

  /** The sentences a scan of the first `n` characters of `acc` emits: the
      stripped prefix up to and including each emitting position, in order. */
  function SentencesUpTo(acc: string, enders: string, n: nat): (ss: seq<string>)
    requires n <= |acc|
  {
    if n == 0 then []
    else SentencesUpTo(acc, enders, n - 1) + (if Emits(acc, enders, n - 1) then [Strip(acc[..n])] else [])
  }

  /** The sentences a whole scan of the accumulated text `acc` emits. */
  function Sentences(acc: string, enders: string): (ss: seq<string>)
  {
    SentencesUpTo(acc, enders, |acc|)
  }

  /** There is one sentence per emitting position. */
  lemma {:induction false} SentencesLength(acc: string, enders: string, n: nat)
    requires n <= |acc|
    ensures |SentencesUpTo(acc, enders, n)| == |SentenceEnds(acc, enders, n)|
  {
    if n > 0 {
      SentencesLength(acc, enders, n - 1);
    }
  }

  /** The `k`-th sentence is the stripped prefix of `acc` that ends at the
      `k`-th emitting position. */
  lemma {:induction false} SentenceAt(acc: string, enders: string, n: nat, k: nat)
    requires n <= |acc| && k < |SentenceEnds(acc, enders, n)|
    ensures |SentencesUpTo(acc, enders, n)| == |SentenceEnds(acc, enders, n)|
    ensures var p := SentenceEnds(acc, enders, n)[k];
      SentencesUpTo(acc, enders, n)[k] == Strip(acc[..p + 1])
  {
    SentencesLength(acc, enders, n);
    if k < |SentenceEnds(acc, enders, n - 1)| {
      SentenceAt(acc, enders, n - 1, k);
    }
  }

  /** Each terminator yields at most one sentence, and exactly one when no
      terminator is whitespace. */
  lemma {:induction false} SentenceEndsCount(acc: string, enders: string, n: nat)
    requires n <= |acc|
    ensures |SentenceEnds(acc, enders, n)| <= EnderCount(acc[..n], enders)
    ensures NonSpaceEnders(enders) ==> |SentenceEnds(acc, enders, n)| == EnderCount(acc[..n], enders)
  {
    if n > 0 {
      SentenceEndsCount(acc, enders, n - 1);
      assert acc[..n][..n - 1] == acc[..n - 1];
      if NonSpaceEnders(enders) && acc[n - 1] in enders {
        EnderEmits(acc, enders, n - 1);
      }
    }
  }

  /** A terminator drawn from non-whitespace terminators is not whitespace. */
  lemma EnderNotSpace(enders: string, ch: char)
    requires NonSpaceEnders(enders) && ch in enders
    ensures !IsSpace(ch)
  {
    var k :| 0 <= k < |enders| && enders[k] == ch;
  }

  /** With non-whitespace terminators every terminator position emits. */
  lemma EnderEmits(acc: string, enders: string, i: nat)
    requires NonSpaceEnders(enders)
    requires i < |acc| && acc[i] in enders
    ensures Strip(acc[..i + 1]) != []
  {
    EnderNotSpace(enders, acc[i]);
    assert !IsSpace(acc[..i + 1][i]);
    StripEmpty(acc[..i + 1]);
  }

  /** With non-whitespace terminators, a sentence runs from the first
      non-whitespace character of `acc` up to and including its terminator. */
  lemma SentenceSpan(acc: string, enders: string, p: nat)
    requires NonSpaceEnders(enders)
    requires p < |acc| && acc[p] in enders
    ensures LeadingSpaces(acc) <= p
    ensures Strip(acc[..p + 1]) == acc[LeadingSpaces(acc)..p + 1]
  {
    EnderNotSpace(enders, acc[p]);
    StripPrefixKeepsEnd(acc, p + 1);
  }

  /** Every sentence emitted for `acc` is the stripped prefix ending at one of
      the terminators of `acc`; its ends are not whitespace; and with
      non-whitespace terminators it ends with a terminator. */
  lemma SentenceShape(acc: string, enders: string, k: nat)
    requires k < |Sentences(acc, enders)|
    ensures var s := Sentences(acc, enders)[k];
      s != [] && !IsSpace(s[0]) && !IsSpace(s[|s| - 1]) &&
      (exists i :: 0 <= i < |acc| && acc[i] in enders && s == Strip(acc[..i + 1])) &&
      (NonSpaceEnders(enders) ==> s[|s| - 1] in enders)
  {
    SentencesLength(acc, enders, |acc|);
    var ps := SentenceEnds(acc, enders, |acc|);
    var p := ps[k];
    SentenceAt(acc, enders, |acc|, k);
    StripEmpty(acc[..p + 1]);
    StripEnds(acc[..p + 1]);
    if NonSpaceEnders(enders) {
      SentenceSpan(acc, enders, p);
    }
  }

  /** Sentences come in increasing order of their terminator positions. */
  lemma SentenceOrder(acc: string, enders: string, k: nat, l: nat)
    requires k < l < |Sentences(acc, enders)|
    ensures var ps := SentenceEnds(acc, enders, |acc|);
      |ps| == |Sentences(acc, enders)| && ps[k] < ps[l] &&
      Sentences(acc, enders)[k] == Strip(acc[..ps[k] + 1]) &&
      Sentences(acc, enders)[l] == Strip(acc[..ps[l] + 1])
  {
    SentencesLength(acc, enders, |acc|);
    SentenceAt(acc, enders, |acc|, k);
    SentenceAt(acc, enders, |acc|, l);
  }

  /** With non-whitespace terminators each sentence is a strict prefix of
      every later one. */
  lemma SentencesArePrefixes(acc: string, enders: string, k: nat, l: nat)
    requires NonSpaceEnders(enders)
    requires k < l < |Sentences(acc, enders)|
    ensures var r := Sentences(acc, enders);
      |r[k]| < |r[l]| && r[k] == r[l][..|r[k]|]
  {
    var ps := SentenceEnds(acc, enders, |acc|);
    SentenceOrder(acc, enders, k, l);
    var i, j := ps[k] + 1, ps[l] + 1;
    SentenceSpan(acc, enders, i - 1);
    SentenceSpan(acc, enders, j - 1);
    var a := LeadingSpaces(acc);
    PrefixOfWindow(acc, a, i, j);
    var r := Sentences(acc, enders);
    assert r[k] == acc[a..i] && r[l] == acc[a..j];
  }

  /** When the last terminator emits, it is the last emitting position. */
  lemma LastEnderEmitsLast(acc: string, enders: string)
    requires LastEnder(acc, enders) >= 0 && Emits(acc, enders, LastEnder(acc, enders))
    ensures var ps := SentenceEnds(acc, enders, |acc|);
      |ps| > 0 && ps[|ps| - 1] == LastEnder(acc, enders)
  {
    var last := LastEnder(acc, enders);
    var ps := SentenceEnds(acc, enders, |acc|);
    SentenceEndsComplete(acc, enders, |acc|, last);
    var m :| 0 <= m < |ps| && ps[m] == last;
    var q := ps[|ps| - 1];
    assert acc[q] in enders;
    LastEnderIsLast(acc, enders, |acc|);
    assert q <= last;
  }

  /** When some non-whitespace character stands at or before the last
      terminator, the last sentence is the stripped prefix that ends at that
      terminator. */
  lemma LastSentence(acc: string, enders: string, j: nat)
    requires j <= LastEnder(acc, enders) && !IsSpace(acc[j])
    ensures var r := Sentences(acc, enders);
      |r| > 0 && r[|r| - 1] == Strip(acc[..LastEnder(acc, enders) + 1])
  {
    var last := LastEnder(acc, enders);
    var pre := acc[..last + 1];
    assert pre[j] == acc[j];
    StripEmpty(pre);
    LastEnderEmitsLast(acc, enders);
    var ps := SentenceEnds(acc, enders, |acc|);
    var r := SentencesUpTo(acc, enders, |acc|);
    SentenceAt(acc, enders, |acc|, |ps| - 1);
    assert |r| == |ps| && ps[|ps| - 1] == last;
    assert r[|r| - 1] == Strip(pre);
  }

  /** A stretch without terminators adds no sentence. */
  lemma {:induction false} SentencesSkip(acc: string, enders: string, m: nat, n: nat)
    requires m <= n <= |acc|
    requires forall k :: m <= k < n ==> acc[k] !in enders
    ensures SentencesUpTo(acc, enders, n) == SentencesUpTo(acc, enders, m)
  {
    if m < n {
      SentencesSkip(acc, enders, m, n - 1);
    }
  }

  /** Once a non-whitespace character `acc[j]` has been seen, each
      terminator adds the stripped prefix ending at it. */
  lemma SentencesNext(acc: string, enders: string, j: nat, p: nat)
    requires j <= p < |acc| && acc[p] in enders && !IsSpace(acc[j])
    ensures SentencesUpTo(acc, enders, p + 1) == SentencesUpTo(acc, enders, p) + [Strip(acc[..p + 1])]
  {
    assert acc[..p + 1][j] == acc[j];
  }

  /** Text that ends with a terminator is used up entirely. */
  lemma RemainderAtEnd(acc: string, enders: string)
    requires |acc| > 0 && acc[|acc| - 1] in enders
    ensures Remainder(acc, enders) == []
  {
  }

  /** Given the buffer invariant, feeding an empty chunk emits nothing and
      keeps the buffer. */
  lemma EmptyChunk(buffer: string, enders: string)
    requires NoEnder(buffer, enders)
    ensures Sentences(buffer + "", enders) == []
    ensures Remainder(buffer + "", enders) == buffer
  {
    assert buffer + "" == buffer;
    SentenceCount(buffer, enders);
    RemainderSpec(buffer, enders);
  }

  /** The default terminators `.?!` are not whitespace. */
  lemma DefaultEndersNotSpace()
    ensures NonSpaceEnders(DefaultEnders)
  {
  }

  /** A scan emits at most one sentence per terminator, none when there is
      no terminator, and exactly one per terminator when no terminator is
      whitespace. */
  lemma SentenceCount(acc: string, enders: string)
    ensures NoEnder(acc, enders) ==> Sentences(acc, enders) == []
    ensures |Sentences(acc, enders)| <= EnderCount(acc, enders)
    ensures NonSpaceEnders(enders) ==> |Sentences(acc, enders)| == EnderCount(acc, enders)
  {
    assert acc[..|acc|] == acc;
    SentenceEndsCount(acc, enders, |acc|);
    SentencesLength(acc, enders, |acc|);
  }

  /** Terminators of a concatenation are those of its parts. */
  lemma {:induction false} EnderCountAppend(x: string, c: string, enders: string)
    ensures EnderCount(x + c, enders) == EnderCount(x, enders) + EnderCount(c, enders)
  {
    if c != [] {
      assert (x + c)[..|x + c| - 1] == x + c[..|c| - 1];
      EnderCountAppend(x, c[..|c| - 1], enders);
    } else {
      assert x + c == x;
    }
  }

  /** Appending text does not move the last terminator of a prefix. */
  lemma {:induction false} LastEnderOfPrefix(y: string, c: string, enders: string, m: nat)
    requires m <= |y|
    ensures LastEnderBefore(y + c, enders, m) == LastEnderBefore(y, enders, m)
  {
    if m > 0 {
      assert (y + c)[m - 1] == y[m - 1];
      LastEnderOfPrefix(y, c, enders, m - 1);
    }
  }

  /** The last terminator of `y + c` lies in `c` when `c` has one, and is
      otherwise the last terminator of `y`. */
  lemma {:induction false} LastEnderAppend(y: string, c: string, enders: string, n: nat)
    requires n <= |c|
    ensures var inC := LastEnderBefore(c, enders, n);
      LastEnderBefore(y + c, enders, |y| + n) == if inC >= 0 then |y| + inC else LastEnder(y, enders)
  {
    if n == 0 {
      LastEnderOfPrefix(y, c, enders, |y|);
    } else {
      assert (y + c)[|y| + n - 1] == c[n - 1];
      if c[n - 1] !in enders {
        LastEnderAppend(y, c, enders, n - 1);
      }
    }
  }

  /** When `c` holds a terminator, what is kept of `y + c` comes from `c`
      alone. */
  lemma RemainderInChunk(y: string, c: string, enders: string)
    requires LastEnder(c, enders) >= 0
    ensures Remainder(y + c, enders) == c[LastEnder(c, enders) + 1..]
  {
    var last := LastEnder(c, enders);
    LastEnderAppend(y, c, enders, |c|);
    assert LastEnder(y + c, enders) == |y| + last;
    calc {
      Remainder(y + c, enders);
      (y + c)[|y| + last + 1..];
      { assert (y + c)[|y|..] == c; }
      c[last + 1..];
    }
  }

  /** Appending text without terminators does not move the last
      terminator. */
  lemma LastEnderNoCut(x: string, c: string, enders: string)
    requires LastEnder(c, enders) == -1
    ensures LastEnder(x + c, enders) == LastEnder(x, enders)
  {
    LastEnderAppend(x, c, enders, |c|);
  }

  /** What follows an unmoved last terminator grows by the appended text. */
  lemma KeepTail(x: string, c: string, enders: string)
    requires LastEnder(x + c, enders) == LastEnder(x, enders) >= 0
    ensures Remainder(x + c, enders) == Remainder(x, enders) + c
  {
    var last := LastEnder(x, enders);
    assert Remainder(x + c, enders) == (x + c)[last + 1..];
    assert Remainder(x, enders) == x[last + 1..];
    DropAppend(x, c, last + 1);
  }

  /** When `c` holds no terminator, it is kept whole after what was kept of
      `x`. */
  lemma RemainderNoCut(x: string, c: string, enders: string)
    requires LastEnder(c, enders) == -1
    ensures Remainder(x + c, enders) == Remainder(x, enders) + c
  {
    LastEnderNoCut(x, c, enders);
    if LastEnder(x, enders) >= 0 {
      KeepTail(x, c, enders);
    } else {
      assert Remainder(x + c, enders) == x + c;
    }
  }

  /** Cutting the buffer early does not change what is kept later: the text
      after the last terminator of `x + c` is the same whether or not `x`
      was already cut down to its own remainder. */
  lemma RemainderAppend(x: string, c: string, enders: string)
    ensures Remainder(Remainder(x, enders) + c, enders) == Remainder(x + c, enders)
  {
    var r := Remainder(x, enders);
    if LastEnder(c, enders) >= 0 {
      RemainderInChunk(x, c, enders);
      RemainderInChunk(r, c, enders);
    } else {
      RemainderNoCut(x, c, enders);
      RemainderNoCut(r, c, enders);
      RemainderSpec(x, enders);
      RemainderSpec(r, enders);
    }
  }

  /** `SentenceStreamProcessor`: the buffered text not yet ended by a
      terminator, and the terminator characters it looks for. */
  class SentenceStreamProcessor {
    var buffer: string
    const enders: string

    /** The buffer never holds a terminator between calls. */
    ghost predicate Valid()
      reads this
    {
      NoEnder(buffer, enders)
    }

    constructor (enders: string := DefaultEnders)
      ensures this.enders == enders && buffer == [] && Valid()
    {
      this.enders := enders;
      buffer := [];
    }

    /** Appends `chunk` to the buffer, emits a sentence for each terminator of
        the accumulated text, and keeps only the text after the last one. */
    method Process(chunk: string) returns (sentences: seq<string>)
      modifies this
      ensures Valid()
      ensures sentences == Sentences(old(buffer) + chunk, enders)
      ensures buffer == Remainder(old(buffer) + chunk, enders)
      ensures NoEnder(old(buffer) + chunk, enders) ==>
        sentences == [] && buffer == old(buffer) + chunk
      ensures old(Valid()) && chunk == [] ==> sentences == [] && buffer == old(buffer)
    {
      assert buffer + [] == buffer;
      buffer := buffer + chunk;
      ghost var acc := buffer;
      sentences := [];
      var lastEnd := -1;
      for i := 0 to |buffer|
        invariant buffer == acc
        invariant sentences == SentencesUpTo(acc, enders, i)
        invariant lastEnd == LastEnderBefore(acc, enders, i)
      {
        if buffer[i] in enders {
          StripEmpty(acc[..i + 1]);
          var sentence := Strip(buffer[..i + 1]);
          if sentence != [] {
            sentences := sentences + [sentence];
          }
          lastEnd := i;
        }
      }
      RemainderSpec(acc, enders);
      SentenceCount(acc, enders);
      if lastEnd != -1 {
        buffer := buffer[lastEnd + 1..];
      }
    }

    /** Hands back the stripped buffer and empties it, whatever it held. */
    method Flush() returns (remaining: string)
      modifies this
      ensures remaining == Strip(old(buffer))
      ensures remaining == [] <==> AllSpace(old(buffer))
      ensures buffer == [] && Valid()
    {
      StripEmpty(buffer);
      remaining := Strip(buffer);
      buffer := [];
    }
  }
}
