/** The editing primitives of vty.c on the NUL-terminated buffer rl_buff with its length
    rl_index and cursor rl_ptr, each proved to be an operation on a zipper. */
module LineBuffers {
  import opened Limits
  import opened Zippers

  /** The bytes hold a string of length `n` with its terminator, and a cursor within it. */
  ghost predicate IsLine(b: seq<char>, p: nat, n: nat) {
    && |b| == MAX_CMDLINE
    && p <= n < MAX_CMDLINE
    && b[n] == '\0'
    && forall i :: 0 <= i < n ==> b[i] != '\0'
  }

  ghost function ZipOf(b: seq<char>, p: nat, n: nat): Zipper
    requires IsLine(b, p, n)
  {
    Zipper(b[..p], b[p..n])
  }

  class LineBuffer {
    const buff: array<char>
    var index: nat
    var ptr: nat

    ghost predicate Valid()
      reads this, buff
    {
      && buff.Length == MAX_CMDLINE
      && IsLine(buff[..], ptr, index)
    }

    ghost function Zip(): Zipper
      requires Valid()
      reads this, buff
    {
      ZipOf(buff[..], ptr, index)
    }

    ghost function Line(): string
      requires Valid()
      reads this, buff
    {
      buff[..][..index]
    }

    lemma ZipText()
      requires Valid()
      ensures Zip().Text() == Line() && Zip().Cursor() == ptr
    {
    }

    constructor ()
      ensures Valid() && Line() == [] && ptr == 0 && fresh(buff)
    {
      buff := new char[MAX_CMDLINE];
      index, ptr := 0, 0;
      new;
      buff[0] := '\0';
    }

    method Reset()
      requires Valid()
      modifies this, buff
      ensures Valid() && Zip() == Zipper([], [])
    {
      ptr := 0;
      buff[0] := '\0';
      index := 0;
    }

    /** hist_write_entry: the buffer holds `s`, cursor at its end. */
    method Write(s: string)
      requires buff.Length == MAX_CMDLINE && |s| <= MAX_LINE && '\0' !in s
      modifies this, buff
      ensures Valid() && Zip() == Zipper(s, [])
    {
      forall i | 0 <= i < |s| {
        buff[i] := s[i];
      }
      buff[|s|] := '\0';
      index := |s|;
      ptr := index;
      assert buff[..][..ptr] == s;
    }

    method SaveChar(c: char) returns (ok: bool)
      requires Valid() && c != '\0'
      modifies this, buff
      ensures Valid() && Zip() == Insert(old(Zip()), c)
      ensures ok <==> |old(Line())| < MAX_LINE
    {
      ghost var b := buff[..];
      ghost var n := index;
      if index >= MAX_CMDLINE - 1 {
        return false;
      }
      index := index + 1;
      var p := index;
      while p != ptr
        invariant index == n + 1 < MAX_CMDLINE && ptr == old(ptr) <= p <= index
        invariant forall i :: 0 <= i < p ==> buff[i] == b[i]
        invariant forall i :: p < i <= index ==> buff[i] == b[i - 1]
      {
        buff[p] := buff[p - 1];
        p := p - 1;
      }
      buff[ptr] := c;
      InsertedBytes(b, buff[..], ptr, n, c);
      ptr := ptr + 1;
      return true;
    }

    method ClearChar() returns (ok: bool)
      requires Valid()
      modifies this, buff
      ensures Valid() && Zip() == EraseChar(old(Zip()))
      ensures ok <==> old(ptr) > 0
      ensures ok ==> ptr == old(ptr) - 1
      ensures !ok ==> ptr == 0
    {
      if ptr == 0 {
        return false;
      }
      ghost var b := buff[..];
      index := index - 1;
      ptr := ptr - 1;
      var p := ptr;
      while buff[p] != '\0'
        invariant index == old(index) - 1 && ptr == old(ptr) - 1 <= p <= index + 1
        invariant forall i :: 0 <= i < ptr ==> buff[i] == b[i]
        invariant forall i :: ptr <= i < p ==> buff[i] == b[i + 1]
        invariant forall i :: p <= i <= index + 1 ==> buff[i] == b[i]
        invariant p == index + 1 ==> buff[index] == '\0'
        decreases index + 1 - p
      {
        buff[p] := buff[p + 1];
        p := p + 1;
      }
      ErasedBytes(b, buff[..], ptr, index);
      return true;
    }

    /** Erase while the byte before the cursor is in the class. At column 0 the source looks at
        the byte in front of the buffer, given here as `before`; the result does not depend on it. */
    method EraseWhile(k: CharClass, before: char)
      requires Valid()
      modifies this, buff
      ensures Valid()
      ensures var z := old(Zip()); Zip() == Zipper(z.left[..BackSpan(z.left, k)], z.right)
    {
      ghost var z, n := Zip(), BackSpan(Zip().left, k);
      var more := true;
      while more
        invariant Valid() && n <= ptr <= |z.left|
        invariant Zip() == Zipper(z.left[..ptr], z.right)
        invariant !more ==> ptr == n
        decreases ptr, more
      {
        var last := if ptr == 0 then before else buff[ptr - 1];
        assert ptr > 0 ==> last == Zip().left[ptr - 1] == z.left[ptr - 1];
        more := k.Has(last);
        if more {
          more := ClearChar();
        }
      }
    }

    method ClearWord(before: char)
      requires Valid()
      modifies this, buff
      ensures Valid() && Zip() == EraseWord(old(Zip()))
    {
      EraseWhile(Space, before);
      EraseWhile(NonSpace, before);
      BackSpanPrefix(old(Zip()).left);
    }

    method ClearLine()
      requires Valid()
      modifies this, buff
      ensures Valid() && Zip() == EraseToStart(old(Zip()))
    {
      ghost var z := Zip();
      var ok := true;
      while ok
        invariant Valid() && ptr <= |z.left|
        invariant Zip() == Zipper(z.left[..ptr], z.right)
        invariant !ok ==> ptr == 0
        decreases ptr, ok
      {
        ok := ClearChar();
      }
    }

    method MoveToBol()
      requires Valid()
      modifies this`ptr
      ensures Valid() && Zip() == Home(old(Zip()))
    {
      while ptr > 0
        invariant ptr <= index
      {
        ptr := ptr - 1;
      }
    }

    method MoveToEol()
      requires Valid()
      modifies this`ptr
      ensures Valid() && Zip() == End(old(Zip()))
    {
      while buff[ptr] != '\0'
        invariant old(ptr) <= ptr <= index
        decreases index - ptr
      {
        ptr := ptr + 1;
      }
      assert Zip().left == old(Zip()).left + old(Zip()).right;
    }

    method BackwardChar()
      requires Valid()
      modifies this`ptr
      ensures Valid() && Zip() == Back(old(Zip()))
    {
      if ptr > 0 {
        ptr := ptr - 1;
      }
    }

    method ForwardChar()
      requires Valid()
      modifies this`ptr
      ensures Valid() && Zip() == Forward(old(Zip()))
    {
      if buff[ptr] != '\0' {
        ptr := ptr + 1;
      }
    }

    /** Move right while the character under the cursor is in the class. */
    method SkipForward(k: CharClass)
      requires Valid()
      modifies this`ptr
      ensures Valid() && Zip() == RightBy(old(Zip()), Span(old(Zip()).right, k))
    {
      hide Span, BackSpan, RightBy;
      ghost var b, end := buff[..], ptr + Span(Zip().right, k);
      while buff[ptr] != '\0' && k.Has(buff[ptr])
        invariant buff[..] == b && old(ptr) <= ptr <= end <= index
        decreases index - ptr
      {
        SpanBytes(b, old(ptr), index, k, ptr);
        ptr := ptr + 1;
      }
      SpanBytes(b, old(ptr), index, k, ptr);
      assert buff[..] == b;
      MovedRight(b, old(ptr), ptr, index);
    }

    /** Move left while the character before the cursor is in the class. */
    method SkipBackward(k: CharClass)
      requires Valid()
      modifies this`ptr
      ensures Valid() && Zip() == LeftTo(old(Zip()), BackSpan(old(Zip()).left, k))
    {
      ghost var b, n := buff[..], BackSpan(Zip().left, k);
      while ptr > 0 && k.Has(buff[ptr - 1])
        invariant n <= ptr <= old(ptr)
      {
        assert buff[ptr - 1] == b[..old(ptr)][ptr - 1];
        ptr := ptr - 1;
      }
      assert ptr > 0 ==> buff[ptr - 1] == b[..old(ptr)][ptr - 1];
      MovedLeft(b, ptr, old(ptr), index);
    }

    method ForwardWord()
      requires Valid()
      modifies this`ptr
      ensures Valid() && Zip() == WordForward(old(Zip()))
    {
      SkipForward(Delimiter);
      SkipForward(WordChar);
    }

    method BackwardWord()
      requires Valid()
      modifies this`ptr
      ensures Valid() && Zip() == WordBack(old(Zip()))
    {
      SkipBackward(Delimiter);
      SkipBackward(WordChar);
    }

    /** The loop the three case operations share: convert up to the end of the word. */
    method ConvertWord(f: LetterCase)
      requires Valid()
      modifies this`ptr, buff
      ensures Valid() && Zip() == Convert(old(Zip()), f)
    {
      hide Span, BackSpan, Convert, Recase;
      ghost var b, end := buff[..], ptr + Span(Zip().right, WordChar);
      while buff[ptr] != '\0' && WordChar.Has(buff[ptr])
        invariant old(ptr) <= ptr <= end <= index
        invariant forall i :: 0 <= i < old(ptr) ==> buff[i] == b[i]
        invariant forall i :: old(ptr) <= i < ptr ==> buff[i] == f.Of(b[i])
        invariant forall i :: ptr <= i <= index ==> buff[i] == b[i]
        decreases index - ptr
      {
        SpanBytes(b, old(ptr), index, WordChar, ptr);
        buff[ptr] := f.Of(buff[ptr]);
        ptr := ptr + 1;
      }
      SpanBytes(b, old(ptr), index, WordChar, ptr);
      ConvertedBytes(b, buff[..], old(ptr), ptr, index, f);
    }

    method ToLowerWord()
      requires Valid()
      modifies this`ptr, buff
      ensures Valid() && Zip() == LowerWord(old(Zip()))
    {
      SkipForward(Delimiter);
      ConvertWord(Lower);
    }

    method ToUpperWord()
      requires Valid()
      modifies this`ptr, buff
      ensures Valid() && Zip() == UpperWord(old(Zip()))
    {
      SkipForward(Delimiter);
      ConvertWord(Upper);
    }

    method UpperChar()
      requires Valid() && ptr < index
      modifies this`ptr, buff
      ensures Valid() && Zip().right == old(Zip().right)[1..] && Zip() == UpperNext(old(Zip()))
    {
      hide Span, BackSpan;
      UpperBytes(buff[..], buff[..][ptr := Upper.Of(buff[ptr])], ptr, index);
      buff[ptr] := Upper.Of(buff[ptr]);
      ptr := ptr + 1;
    }

    method CapitalizeWord()
      requires Valid()
      modifies this`ptr, buff
      ensures Valid() && Zip() == Zippers.CapitalizeWord(old(Zip()))
    {
      hide Span, BackSpan, Convert, UpperNext, Recase;
      SkipForward(Delimiter);
      if buff[ptr] == '\0' {
        return;
      }
      UpperChar();
      ConvertWord(Lower);
    }
  }

  lemma BackSpanPrefix(s: string)
    ensures var n := BackSpan(s, Space);
            s[..n][..BackSpan(s[..n], NonSpace)] == s[..BackSpan(s[..n], NonSpace)]
  {
  }

  lemma SpanBytes(b: seq<char>, p: nat, n: nat, k: CharClass, q: nat)
    requires IsLine(b, p, n) && p <= q <= p + Span(b[p..n], k)
    ensures q < p + Span(b[p..n], k) <==> b[q] != '\0' && k.Has(b[q])
  {
    if q < n {
      assert b[p..n][q - p] == b[q];
    }
  }

  lemma MovedRight(b: seq<char>, p: nat, q: nat, n: nat)
    requires p <= q && IsLine(b, p, n) && IsLine(b, q, n)
    ensures ZipOf(b, q, n) == RightBy(ZipOf(b, p, n), q - p)
  {
  }

  lemma MovedLeft(b: seq<char>, p: nat, q: nat, n: nat)
    requires p <= q && IsLine(b, p, n) && IsLine(b, q, n)
    ensures ZipOf(b, p, n) == LeftTo(ZipOf(b, q, n), p)
  {
  }

  lemma InsertedBytes(b: seq<char>, b': seq<char>, p: nat, n: nat, c: char)
    requires IsLine(b, p, n) && n + 1 < MAX_CMDLINE && c != '\0' && |b'| == |b|
    requires forall i :: 0 <= i < p ==> b'[i] == b[i]
    requires b'[p] == c
    requires forall i :: p < i <= n + 1 ==> b'[i] == b[i - 1]
    ensures IsLine(b', p + 1, n + 1)
    ensures ZipOf(b', p + 1, n + 1) == Insert(ZipOf(b, p, n), c)
  {
    assert b'[..p + 1] == b[..p] + [c];
    assert b'[p + 1..n + 1] == b[p..n];
  }

  lemma ErasedBytes(b: seq<char>, b': seq<char>, p: nat, n: nat)
    requires IsLine(b, p + 1, n + 1) && |b'| == |b|
    requires forall i :: 0 <= i < p ==> b'[i] == b[i]
    requires forall i :: p <= i <= n ==> b'[i] == b[i + 1]
    ensures IsLine(b', p, n)
    ensures ZipOf(b', p, n) == EraseChar(ZipOf(b, p + 1, n + 1))
  {
    assert b'[..p] == b[..p + 1][..p];
    assert b'[p..n] == b[p + 1..n + 1];
  }

  lemma ConvertedBytes(b: seq<char>, b': seq<char>, p: nat, q: nat, n: nat, f: LetterCase)
    requires p <= q && IsLine(b, p, n) && q <= n && |b'| == |b|
    requires q - p == Span(b[p..n], WordChar)
    requires forall i :: 0 <= i < p ==> b'[i] == b[i]
    requires forall i :: p <= i < q ==> b'[i] == f.Of(b[i])
    requires forall i :: q <= i <= n ==> b'[i] == b[i]
    ensures IsLine(b', q, n)
    ensures ZipOf(b', q, n) == Convert(ZipOf(b, p, n), f)
  {
    hide Span;
    var word := b[p..n][..q - p];
    forall i | 0 <= i < |word|
      ensures b'[p + i] == Recase(word, f)[i]
    {
      assert word[i] == b[p + i];
    }
    assert b'[..q] == b[..p] + Recase(word, f);
    assert b'[q..n] == b[p..n][q - p..];
  }

  lemma UpperBytes(b: seq<char>, b': seq<char>, p: nat, n: nat)
    requires IsLine(b, p, n) && p < n && b' == b[p := Upper.Of(b[p])]
    ensures IsLine(b', p + 1, n)
    ensures ZipOf(b', p + 1, n) == UpperNext(ZipOf(b, p, n))
  {
    assert b'[..p + 1] == b[..p] + [Upper.Of(b[p])];
    assert b'[p + 1..n] == b[p..n][1..];
  }
}
