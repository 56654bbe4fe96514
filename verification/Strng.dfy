/**
 Strings as growable zero-terminated buffers (libjtype/buffer.c, libjtype/strng.c): slices,
 appending, joining and splitting.  Splitting and joining at one character undo each other.
 */
module Strng {
  import opened LinkedList

  // ---------- slices ----------

  /** STRNG_OPEN (INT_MAX) leaves an end of the slice open. */
  const OPEN := 0x7fff_ffff

  /** A position between characters, counted from the end if negative, held within the string. */
  function Position(i: int, length: nat): (p: nat)
    ensures p <= length
  {
    if i < 0 then (if i + length < 0 then 0 else i + length)
    else if i > length then length else i
  }

  /** Python's slice. */
  function Slice(s: string, start: int, end: int): string {
    var lo := if start == OPEN then 0 else Position(start, |s|);
    var hi := if end == OPEN then |s| else Position(end, |s|);
    if lo < hi then s[lo..hi] else ""
  }

  /** The ends of a slice: left open, counted from the front, and counted from the end. */
  lemma SliceEnds(s: string, k: nat)
    requires k <= |s| < 0x7fff_ffff
    ensures Slice(s, 0x7fff_ffff, k) == s[..k] && Slice(s, k, 0x7fff_ffff) == s[k..]
    ensures k > 0 ==> Slice(s, 0x7fff_ffff, 0 - k) == s[..|s| - k] && Slice(s, 0 - k, 0x7fff_ffff) == s[|s| - k..]
  {
    SliceBetween(s, 0x7fff_ffff, k, 0, k);
    SliceBetween(s, k, 0x7fff_ffff, k, |s|);
    if k > 0 {
      SliceBetween(s, 0x7fff_ffff, 0 - k, 0, |s| - k);
      SliceBetween(s, 0 - k, 0x7fff_ffff, |s| - k, |s|);
    }
    hide Slice;
    assert s[0..k] == s[..k] && s[k..|s|] == s[k..];
  }

  lemma SliceBetween(s: string, start: int, end: int, lo: nat, hi: nat)
    requires lo <= hi <= |s|
    requires lo == if start == OPEN then 0 else Position(start, |s|)
    requires hi == if end == OPEN then |s| else Position(end, |s|)
    ensures Slice(s, start, end) == s[lo..hi]
  {
    hide Position;
  }

  // ---------- joining and splitting ----------

  function Join(parts: seq<string>, sep: string): string {
    if parts == [] then ""
    else if |parts| == 1 then parts[0]
    else parts[0] + sep + Join(parts[1..], sep)
  }

  /** The first position at which one of `chars` stands, or the length. */
  function FirstOf(s: string, chars: string): (k: nat)
    ensures k <= |s|
    ensures forall j :: 0 <= j < k ==> s[j] !in chars
    ensures k < |s| ==> s[k] in chars
  {
    if s == "" || s[0] in chars then 0 else 1 + FirstOf(s[1..], chars)
  }

  lemma {:induction false} FirstOfIs(s: string, chars: string, k: nat)
    requires k <= |s| && (forall j :: 0 <= j < k ==> s[j] !in chars) && (k < |s| ==> s[k] in chars)
    ensures FirstOf(s, chars) == k
  {
    if k > 0 { FirstOfIs(s[1..], chars, k - 1); }
  }

  /** Split at every occurrence of one of `chars`. */
  function Split(s: string, chars: string): (parts: seq<string>)
    ensures parts != []
    decreases |s|
  {
    var k := FirstOf(s, chars);
    if k == |s| then [s] else [s[..k]] + Split(s[k + 1..], chars)
  }

  /** No part contains a separator. */
  lemma {:induction false} PartsAreFree(s: string, chars: string)
    ensures forall p, c :: p in Split(s, chars) && c in chars ==> c !in p
    decreases |s|
  {
    var k := FirstOf(s, chars);
    if k < |s| { PartsAreFree(s[k + 1..], chars); }
  }

  /** Joining the parts of a string split at one character gives the string back. */
  lemma {:induction false} JoinUndoesSplit(s: string, c: char)
    ensures Join(Split(s, [c]), [c]) == s
    decreases |s|
  {
    var k := FirstOf(s, [c]);
    if k < |s| {
      JoinUndoesSplit(s[k + 1..], c);
      assert Split(s, [c])[1..] == Split(s[k + 1..], [c]);
      assert s == s[..k] + [c] + s[k + 1..];
    }
  }

  /** The first separator of a string that starts with a part free of it. */
  lemma {:induction false} FirstAfterPart(p: string, c: char, rest: string)
    requires c !in p
    ensures FirstOf(p + [c] + rest, [c]) == |p|
  {
    if p != "" {
      FirstAfterPart(p[1..], c, rest);
      assert (p + [c] + rest)[1..] == p[1..] + [c] + rest;
    }
  }

  lemma {:induction false} NoneInPart(p: string, c: char)
    requires c !in p
    ensures FirstOf(p, [c]) == |p|
  {
    if p != "" { NoneInPart(p[1..], c); }
  }

  /** Splitting the join of parts free of the character gives the parts back. */
  lemma {:induction false} SplitUndoesJoin(parts: seq<string>, c: char)
    requires parts != [] && forall p :: p in parts ==> c !in p
    ensures Split(Join(parts, [c]), [c]) == parts
  {
    if |parts| == 1 {
      NoneInPart(parts[0], c);
    } else {
      var rest := Join(parts[1..], [c]);
      SplitUndoesJoin(parts[1..], c);
      FirstAfterPart(parts[0], c, rest);
      var s := parts[0] + [c] + rest;
      assert s[..|parts[0]|] == parts[0] && s[|parts[0]| + 1..] == rest;
    }
  }

  // ---------- buffers ----------

  const NUL := '\0'

  class Buffer {
    var buffer: array<char>
    var length: nat

    /** As jt_buffer_new leaves it: `size` bytes, none used. */
    constructor (size: nat)
      ensures fresh(buffer) && buffer.Length == size && length == 0
    {
      buffer := new char[size];
      length := 0;
    }

    ghost predicate Valid()
      reads this
    {
      length <= buffer.Length
    }

    ghost function Bytes(): (s: seq<char>)
      requires Valid()
      reads this, buffer
    {
      buffer[..length]
    }

    /** realloc: a larger array with the same start. */
    method Reallocate(size: nat)
      requires Valid() && size >= buffer.Length
      modifies this`buffer
      ensures fresh(buffer) && buffer.Length == size && length == old(length)
      ensures buffer[..old(buffer.Length)] == old(buffer[..])
    {
      var smaller := buffer;
      var larger := new char[size];
      for k := 0 to smaller.Length
        modifies larger
        invariant larger[..k] == smaller[..k]
      {
        larger[k] := smaller[k];
      }
      buffer := larger;
    }

    /** jt_buffer_append: doubles until the data fits with room to spare. */
    method AppendData(data: seq<char>) returns (at: nat)
      requires Valid() && buffer.Length > 0
      modifies this, buffer
      ensures Valid() && at == old(length) && Bytes() == old(Bytes()) + data && length < buffer.Length
      ensures buffer == old(buffer) || fresh(buffer)
    {
      var newlength := length + |data|;
      ghost var bytes := Bytes();
      while newlength >= buffer.Length
        invariant Valid() && length == old(length) && Bytes() == bytes && buffer.Length > 0
        invariant buffer == old(buffer) || fresh(buffer)
        decreases newlength + 1 - buffer.Length
      {
        Reallocate(buffer.Length * 2);
        assert buffer[..length] == bytes;
      }
      CopyIn(length, data);
      at := length;
      length := newlength;
      assert buffer[..length] == buffer[..at] + buffer[at..length];
    }

    /** jt_buffer_extend: a new length; only a buffer that has to be reallocated is filled up with zeros. */
    method Extend(len: nat)
      requires Valid()
      modifies this
      ensures Valid() && length == len && (buffer == old(buffer) || fresh(buffer))
      ensures forall k :: 0 <= k < old(length) && k < len ==> buffer[k] == old(buffer[k])
      ensures len >= old(buffer.Length) ==> forall k :: old(length) <= k < len ==> buffer[k] == NUL
    {
      var oldlen := length;
      if len < buffer.Length {
        length := len;
        return;
      }
      ghost var bytes := buffer[..];
      Reallocate(len);
      assert forall k :: 0 <= k < oldlen ==> buffer[k] == bytes[k];
      for k := oldlen to len
        modifies buffer
        invariant forall j :: 0 <= j < oldlen ==> buffer[j] == bytes[j]
        invariant forall j :: oldlen <= j < k ==> buffer[j] == NUL
      {
        buffer[k] := NUL;
      }
      length := len;
    }

    /** memcpy and strcpy. */
    method CopyIn(at: nat, data: seq<char>)
      requires at + |data| <= buffer.Length
      modifies buffer
      ensures buffer[at..at + |data|] == data
      ensures forall k :: 0 <= k < buffer.Length && !(at <= k < at + |data|) ==> buffer[k] == old(buffer[k])
    {
      for k := 0 to |data|
        invariant buffer[at..at + k] == data[..k]
        invariant forall j :: 0 <= j < buffer.Length && !(at <= j < at + k) ==> buffer[j] == old(buffer[j])
      {
        buffer[at + k] := data[k];
        assert buffer[at..at + k + 1] == buffer[at..at + k] + [data[k]];
      }
    }

    // ---------- strings ----------

    /** The buffer holds a string: its text and one terminating zero. */
    ghost predicate IsString()
      reads this, buffer
    {
      Valid() && length > 0 && buffer[length - 1] == NUL && NUL !in buffer[..length - 1]
    }

    ghost function Text(): (s: string)
      requires IsString()
      reads this, buffer
      ensures NUL !in s
    {
      buffer[..length - 1]
    }
  
    /** jt_strng_new. */
    constructor FromText(val: string)
      requires NUL !in val
      ensures IsString() && Text() == val && fresh(buffer)
    {
      buffer := new char[|val| + 1](k requires 0 <= k <= |val| => if k < |val| then val[k] else NUL);
      length := |val| + 1;
      new;
      assert buffer[..length - 1] == val;
    }

    /** jt_strng_append_c, and jt_strng_append given the text of another string. */
    method AppendText(append: string)
      requires IsString() && NUL !in append
      modifies this, buffer
      ensures IsString() && Text() == old(Text()) + append && (buffer == old(buffer) || fresh(buffer))
    {
      ghost var text := Text();
      var origlength := length;
      Extend(length + |append|);
      CopyIn(origlength - 1, append + [NUL]);
      assert buffer[..origlength - 1] == text;
      assert buffer[origlength - 1..length] == append + [NUL];
      assert buffer[origlength - 1..length - 1] == buffer[origlength - 1..length][..|append|] == append;
      assert buffer[length - 1] == buffer[origlength - 1..length][|append|];
      assert buffer[..length - 1] == buffer[..origlength - 1] + buffer[origlength - 1..length - 1];
    }

    /** jt_strng_append. */
    method AppendString(append: Buffer)
      requires IsString() && append.IsString() && append != this && append.buffer != buffer
      modifies this, buffer
      ensures IsString() && Text() == old(Text()) + append.Text() && (buffer == old(buffer) || fresh(buffer))
    {
      AppendText(append.buffer[..append.length - 1]);
    }

    /** strpbrk from `runner` on: how far the next separator is. */
    method NextSplit(runner: nat, splitat: string) returns (thislen: nat)
      requires IsString() && runner <= length - 1
      ensures runner + thislen <= length - 1 && thislen == FirstOf(Text()[runner..], splitat)
    {
      thislen := 0;
      ghost var rest := Text()[runner..];
      while runner + thislen < length - 1 && buffer[runner + thislen] !in splitat
        invariant runner + thislen <= length - 1
        invariant forall j :: 0 <= j < thislen ==> rest[j] !in splitat
      {
        thislen := thislen + 1;
      }
      FirstOfIs(rest, splitat, thislen);
    }

    /** jt_strng_len. */
    method Len() returns (len: nat)
      requires IsString()
      ensures len == |Text()|
    {
      len := length - 1;
    }

    /** The ends of a slice: open ends filled in, negative ones counted from the end, both held in range. */
    method Ends(first: int, last: int, len: nat) returns (start: int, end: int)
      ensures start < end ==> 0 <= start && end <= len
      ensures start < end ==> forall s: string :: |s| == len ==> Slice(s, first, last) == s[start..end]
      ensures end <= start ==> forall s: string :: |s| == len ==> Slice(s, first, last) == ""
    {
      start, end := first, last;
      if start == OPEN { start := 0; }
      if end == OPEN { end := len; }
      if start < 0 { start := start + len; }
      if end < 0 { end := end + len; }
      if start < 0 { start := 0; }
      if end > len { end := len; }
    }

    /** jt_strng_slice. */
    method SliceOf(first: int, last: int) returns (part: Buffer)
      requires IsString()
      ensures fresh(part) && fresh(part.buffer) && part.IsString() && part.Text() == Slice(Text(), first, last)
    {
      hide Slice;
      var start, end := Ends(first, last, length - 1);
      ghost var text := Text();
      assert |text| == length - 1;
      if end <= start {
        part := new Buffer.FromText("");
      } else {
        SliceOfFront(buffer[..], length - 1, start, end);
        part := new Buffer.FromText(buffer[start..end]);
      }
    }
  }

  // ---------- lists of strings ----------

  lemma SliceOfFront(b: seq<char>, n: nat, start: nat, end: nat)
    requires start <= end <= n <= |b|
    ensures b[start..end] == b[..n][start..end]
  {
  }

  ghost predicate AllStrings(parts: seq<Buffer>)
    reads parts, set k | 0 <= k < |parts| :: parts[k].buffer
  {
    forall k :: 0 <= k < |parts| ==> parts[k].IsString()
  }

  /** The texts of some strings, in order. */
  ghost function Texts(parts: seq<Buffer>): (t: seq<string>)
    requires AllStrings(parts)
    reads parts, set k | 0 <= k < |parts| :: parts[k].buffer
    ensures |t| == |parts|
  {
    if parts == [] then [] else Texts(parts[..|parts| - 1]) + [parts[|parts| - 1].Text()]
  }

  lemma {:induction false} TextsAt(parts: seq<Buffer>, k: nat)
    requires AllStrings(parts) && k < |parts|
    ensures parts[k].IsString() && Texts(parts)[k] == parts[k].Text()
  {
    if k < |parts| - 1 { TextsAt(parts[..|parts| - 1], k); }
  }

  lemma TextsAppend(parts: seq<Buffer>, part: Buffer)
    requires AllStrings(parts) && part.IsString()
    ensures AllStrings(parts + [part]) && Texts(parts + [part]) == Texts(parts) + [part.Text()]
  {
    assert (parts + [part])[..|parts|] == parts;
  }

  lemma {:induction false} JoinAppend(parts: seq<string>, sep: string, p: string)
    ensures Join(parts + [p], sep) == if parts == [] then p else Join(parts, sep) + sep + p
  {
    var all := parts + [p];
    if |parts| > 0 {
      assert all[1..] == parts[1..] + [p];
      JoinAppend(parts[1..], sep, p);
    }
  }

  /** The text accumulated once `k` of the parts are in: a separator follows each part but the last. */
  ghost function Accumulated(parts: seq<string>, sep: string, k: nat): string
    requires k <= |parts|
  {
    if k == 0 then "" else Join(parts[..k], sep) + if k < |parts| then sep else ""
  }

  lemma AccumulatedNext(parts: seq<string>, sep: string, k: nat)
    requires k < |parts|
    ensures Accumulated(parts, sep, k + 1) == Accumulated(parts, sep, k) + parts[k] + if k + 1 < |parts| then sep else ""
  {
    assert parts[..k + 1] == parts[..k] + [parts[k]];
    JoinAppend(parts[..k], sep, parts[k]);
  }

  /** Append one part, and a separator unless it is the last. */
  method JoinOne(accum: Buffer, part: Buffer, joinwith: string, last: bool)
    requires accum.IsString() && part.IsString() && part != accum && part.buffer != accum.buffer && NUL !in joinwith
    modifies accum, accum.buffer
    ensures accum.IsString() && (accum.buffer == old(accum.buffer) || fresh(accum.buffer))
    ensures accum.Text() == old(accum.Text()) + old(part.Text()) + if last then "" else joinwith
  {
    accum.AppendString(part);
    if !last { accum.AppendText(joinwith); }
  }

  /** jt_strng_list_join. */
  method ListJoin(strlist: List<Buffer>, joinwith: string) returns (accum: Buffer)
    requires strlist.Valid() && AllStrings(strlist.Contents()) && NUL !in joinwith
    ensures fresh(accum) && accum.IsString() && AllStrings(strlist.Contents())
    ensures accum.Text() == Join(Texts(strlist.Contents()), joinwith)
  {
    hide Joined, Distinct, Data, Join, Texts, AllStrings;
    ghost var k, parts, texts := 0, strlist.Contents(), Texts(strlist.Contents());
    accum := new Buffer.FromText("");
    var walk := strlist.head;
    while walk != null
      invariant fresh(accum) && fresh(accum.buffer) && accum.IsString()
      invariant AllStrings(parts) && Texts(parts) == texts
      invariant 0 <= k <= |parts| && walk == strlist.From(k) && accum.Text() == Accumulated(texts, joinwith, k)
      decreases |parts| - k
    {
      strlist.Neighbours(k);
      DataAt(strlist.nodes, k);
      TextsAt(parts, k);
      AccumulatedNext(texts, joinwith, k);
      JoinOne(accum, walk.data, joinwith, walk.prev == null);
      walk := walk.prev;
      k := k + 1;
    }
    AccumulatedAll(texts, joinwith);
  }

  lemma AccumulatedAll(texts: seq<string>, sep: string)
    ensures Accumulated(texts, sep, |texts|) == Join(texts, sep)
  {
    assert texts[..|texts|] == texts;
  }

  /** The next part from `runner`, and where the one after it starts. */
  method SplitOne(mystr: Buffer, runner: nat, splitat: string) returns (part: Buffer, after: nat, done: bool)
    requires mystr.IsString() && runner <= |mystr.Text()| < OPEN
    ensures fresh(part) && fresh(part.buffer) && part.IsString()
    ensures if done then after == runner else runner < after <= |mystr.Text()|
    ensures Split(mystr.Text()[runner..], splitat) ==
            [part.Text()] + if done then [] else Split(mystr.Text()[if done then 0 else after..], splitat)
  {
    hide Split, Slice, FirstOf;
    ghost var text := mystr.Text();
    var thislen := mystr.NextSplit(runner, splitat);
    FirstPart(text, runner, splitat, thislen);
    if runner + thislen < mystr.length - 1 {
      part := mystr.SliceOf(runner, runner + thislen);
      after, done := runner + thislen + 1, false;
    } else {
      part := mystr.SliceOf(runner, OPEN);
      after, done := runner, true;
    }
  }

  /** The first part of what is left from `runner`, as a slice. */
  lemma FirstPart(text: string, runner: nat, chars: string, k: nat)
    requires runner <= |text| < OPEN && k == FirstOf(text[runner..], chars)
    ensures runner + k < |text| ==>
              Split(text[runner..], chars) == [Slice(text, runner, runner + k)] + Split(text[runner + k + 1..], chars)
    ensures runner + k >= |text| ==> Split(text[runner..], chars) == [Slice(text, runner, OPEN)]
  {
    hide FirstOf;
    if runner + k < |text| {
      assert text[runner..][..k] == text[runner..runner + k];
      assert text[runner..][k + 1..] == text[runner + k + 1..];
    } else {
      assert text[runner..] == text[runner..|text|];
    }
  }

  /** Put one part at the head of the list so far. */
  method AddPart(acc: List<Buffer>, part: Buffer, ghost parts: seq<Buffer>)
    requires acc.Valid() && acc.Contents() == Reversed(parts) && AllStrings(parts) && part.IsString()
    modifies acc, acc.nodes
    ensures acc.Valid() && acc.Contents() == Reversed(parts + [part])
    ensures |acc.nodes| == |old(acc.nodes)| + 1 && fresh(acc.nodes[0]) && acc.nodes[1..] == old(acc.nodes)
    ensures AllStrings(parts + [part]) && Texts(parts + [part]) == old(Texts(parts)) + [old(part.Text())]
  {
    hide Joined, Distinct, Data, Reversed, Texts, AllStrings;
    TextsAppend(parts, part);
    ReversedAppend(parts, part);
    var item := acc.Add(part);
  }

  /** Split one part off, and put it at the head of the list so far. */
  method TakePart(acc: List<Buffer>, mystr: Buffer, runner: nat, splitat: string, ghost parts: seq<Buffer>)
    returns (part: Buffer, after: nat, done: bool)
    requires mystr.IsString() && runner <= |mystr.Text()| < OPEN
    requires acc.Valid() && acc.Contents() == Reversed(parts) && AllStrings(parts)
    requires SplitSoFar(mystr.Text(), splitat, Texts(parts), runner, false)
    modifies acc, acc.nodes
    ensures mystr.IsString() && mystr.Text() == old(mystr.Text())
    ensures if done then after == runner else runner < after <= |mystr.Text()|
    ensures fresh(part) && fresh(part.buffer)
    ensures acc.Valid() && acc.Contents() == Reversed(parts + [part]) && AllStrings(parts + [part])
    ensures |acc.nodes| == |old(acc.nodes)| + 1 && fresh(acc.nodes[0]) && acc.nodes[1..] == old(acc.nodes)
    ensures SplitSoFar(mystr.Text(), splitat, Texts(parts + [part]), after, done)
  {
    hide Joined, Distinct, Data, Split, Reversed, Texts, AllStrings, SplitSoFar;
    ghost var text, texts := mystr.Text(), Texts(parts);
    part, after, done := SplitOne(mystr, runner, splitat);
    SplitFurther(text, splitat, texts, runner, part.Text(), after, done);
    AddPart(acc, part, parts);
  }

  /** jt_strng_list_split. */
  method ListSplit(mystr: Buffer, splitat: string) returns (acc: List<Buffer>)
    requires mystr.IsString() && |mystr.Text()| < OPEN
    ensures fresh(acc) && acc.Valid() && AllStrings(acc.Contents()) && Texts(acc.Contents()) == Split(mystr.Text(), splitat)
  {
    hide Joined, Distinct, Data, Split, Reversed, Texts, AllStrings, SplitSoFar;
    acc := new List();
    ghost var text, parts: seq<Buffer> := mystr.Text(), [];
    var runner, done := 0, false;
    NothingSplit(text, splitat);
    while !done
      invariant runner <= |text| && mystr.IsString() && mystr.Text() == text
      invariant acc.Valid() && fresh(acc) && forall k :: 0 <= k < |acc.nodes| ==> fresh(acc.nodes[k])
      invariant acc.Contents() == Reversed(parts) && AllStrings(parts)
      invariant forall k :: 0 <= k < |parts| ==> fresh(parts[k]) && fresh(parts[k].buffer)
      invariant SplitSoFar(text, splitat, Texts(parts), runner, done)
      decreases |text| - runner, !done
    {
      var part;
      part, runner, done := TakePart(acc, mystr, runner, splitat, parts);
      parts := parts + [part];
    }
    AllSplit(text, splitat, Texts(parts), runner);
    acc.Reverse();
    ReversedTwice(parts);
  }

  /** The parts found so far, and what is still to be split. */
  ghost predicate SplitSoFar(text: string, chars: string, texts: seq<string>, runner: nat, done: bool)
    requires runner <= |text|
  {
    Split(text, chars) == texts + if done then [] else Split(text[runner..], chars)
  }

  lemma SplitFurther(text: string, chars: string, texts: seq<string>, from: nat, part: string, runner: nat, done: bool)
    requires from <= |text| && runner <= |text| && SplitSoFar(text, chars, texts, from, false)
    requires Split(text[from..], chars) == [part] + if done then [] else Split(text[runner..], chars)
    ensures SplitSoFar(text, chars, texts + [part], runner, done)
  {
    hide Split;
  }

  lemma NothingSplit(text: string, chars: string)
    ensures Reversed<Buffer>([]) == [] && AllStrings([]) && SplitSoFar(text, chars, Texts([]), 0, false)
  {
    hide Split;
    assert text[0..] == text;
  }

  lemma AllSplit(text: string, chars: string, texts: seq<string>, runner: nat)
    requires runner <= |text| && SplitSoFar(text, chars, texts, runner, true)
    ensures texts == Split(text, chars)
  {
    hide Split;
  }
}
