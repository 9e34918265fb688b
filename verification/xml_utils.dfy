/**
 * The tag-value editor of source/xml_utils.c: locating the value of a named
 * element in a NUL-terminated document, reading it into a bounded caller
 * buffer, and rewriting it in place inside the document's fixed-capacity
 * buffer.
 *
 * Positions are indices into the document; the document text is the part
 * of the buffer before its first NUL.
 */
module XmlUtils {
  import opened Wrappers
  import opened CString

  /** Size of the local scratch arrays the tag patterns are formatted into. */
  const PatternBufferSize: nat := 128

  /** The literal opening tag `<name>` searched for (no attributes are allowed in it). */
  function OpenTag(name: seq<char>): (r: seq<char>)
    ensures |r| == |name| + 2 && r[0] == '<' && r[|r| - 1] == '>'
  {
    ['<'] + name + ['>']
  }

  /** The literal closing tag `</name>`. */
  function CloseTag(name: seq<char>): (r: seq<char>)
    ensures |r| == |name| + 3 && r[0] == '<' && r[1] == '/' && r[|r| - 1] == '>'
  {
    ['<', '/'] + name + ['>']
  }

  /**
   * Formatting `pattern` into the 128-byte scratch array succeeds only when
   * the pattern and its terminating NUL fit; otherwise the call fails.
   */
  predicate Fits(pattern: seq<char>)
    ensures Fits(pattern) <==> |pattern| + 1 <= PatternBufferSize
  {
    |pattern| < PatternBufferSize
  }

  /** A value span: the half-open index range [start, end) of an element's value. */
  datatype Span = Span(start: nat, end: nat)

  /**
   * What a value span of element `name` in `text` is, independently of how
   * it is searched for: both patterns fit the scratch arrays, `start` is just
   * past the first occurrence of `<name>`, and `end` is the first occurrence
   * of `</name>` at or after `start`.
   */
  ghost predicate IsValueSpan(text: seq<char>, name: seq<char>, sp: Span)
    ensures IsValueSpan(text, name, sp) ==>
      |OpenTag(name)| <= sp.start <= sp.end && sp.end + |CloseTag(name)| <= |text|
  {
    Fits(OpenTag(name)) && Fits(CloseTag(name)) &&
    sp.start >= |OpenTag(name)| &&
    FirstOccurrence(text, OpenTag(name), 0, sp.start - |OpenTag(name)|) &&
    FirstOccurrence(text, CloseTag(name), sp.start, sp.end)
  }

  /**
   * find_tag_value_start: the index just past the first occurrence of the
   * literal `<name>`, or None when the pattern does not fit the scratch
   * array or does not occur (see ValueStartIsFirst).
   */
  function FindTagValueStart(text: seq<char>, name: seq<char>): (r: Option<nat>)
    ensures r.Some? ==> |OpenTag(name)| <= r.value <= |text|
  {
    var open := OpenTag(name);
    if !Fits(open) then None
    else match Find(text, open, 0)
      case None => None
      case Some(i) => Some(i + |open|)
  }

  /**
   * A value start lies just past the first `<name>` (so right after a `>`);
   * there is none exactly when `<name>` does not fit its scratch array or
   * does not occur.
   */
  lemma ValueStartIsFirst(text: seq<char>, name: seq<char>)
    ensures var r := FindTagValueStart(text, name);
      r.Some? ==>
        && Fits(OpenTag(name))
        && FirstOccurrence(text, OpenTag(name), 0, r.value - |OpenTag(name)|)
        && text[r.value - 1] == '>'
    ensures FindTagValueStart(text, name).None? <==>
      !Fits(OpenTag(name)) || forall j :: !OccursAt(text, OpenTag(name), j)
  {
    var open := OpenTag(name);
    FindIsFirst(text, open, 0);
    var r := FindTagValueStart(text, name);
    if r.Some? {
      var i := r.value - |open|;
      assert OccursAt(text, open, i);
      assert open[|open| - 1] == '>';
      assert text[r.value - 1] == text[i..i + |open|][|open| - 1];
    } else if Fits(open) {
      assert Find(text, open, 0).None?;
    }
  }

  /** The first occurrence of an opening tag is unique. */
  lemma OpenTagFirstOccurrenceUnique(text: seq<char>, name: seq<char>, i: nat, k: nat)
    requires FirstOccurrence(text, OpenTag(name), 0, i)
    requires FirstOccurrence(text, OpenTag(name), 0, k)
    ensures i == k
  {
  }

  /**
   * The value span both get_tag_string and set_tag_string locate: the value
   * start, then the first `</name>` from there. None when the opening tag is
   * missing, the closing pattern does not fit its scratch array, or the
   * closing tag is missing (see ValueSpanIsValueSpan).
   */
  function ValueSpan(text: seq<char>, name: seq<char>): (r: Option<Span>)
    ensures r.Some? ==> r.value.start <= r.value.end <= |text|
  {
    match FindTagValueStart(text, name)
    case None => None
    case Some(vs) =>
      var close := CloseTag(name);
      if !Fits(close) then None
      else match Find(text, close, vs)
        case None => None
        case Some(ve) => Some(Span(vs, ve))
  }

  /** ValueSpan finds the value span when there is one, and there is at most one. */
  lemma ValueSpanIsValueSpan(text: seq<char>, name: seq<char>)
    ensures ValueSpan(text, name).Some? ==> IsValueSpan(text, name, ValueSpan(text, name).value)
    ensures forall sp :: IsValueSpan(text, name, sp) ==> ValueSpan(text, name) == Some(sp)
  {
    var r := ValueSpan(text, name);
    if r.Some? {
      ValueStartIsFirst(text, name);
      FindIsFirst(text, CloseTag(name), r.value.start);
    }
    forall sp | IsValueSpan(text, name, sp)
      ensures ValueSpan(text, name) == Some(sp)
    {
      ValueSpanIsUnique(text, name, sp);
    }
  }

  /** Any value span is the one ValueSpan finds. */
  lemma ValueSpanIsUnique(text: seq<char>, name: seq<char>, sp: Span)
    requires IsValueSpan(text, name, sp)
    ensures ValueSpan(text, name) == Some(sp)
  {
    ValueStartIsUnique(text, name, sp.start);
    FindReturnsFirst(text, CloseTag(name), sp.start, sp.end);
  }

  /** Any index just past a first `<name>` that fits is the value start found. */
  lemma ValueStartIsUnique(text: seq<char>, name: seq<char>, vs: nat)
    requires Fits(OpenTag(name)) && vs >= |OpenTag(name)|
    requires FirstOccurrence(text, OpenTag(name), 0, vs - |OpenTag(name)|)
    ensures FindTagValueStart(text, name) == Some(vs)
  {
    FindReturnsFirst(text, OpenTag(name), 0, vs - |OpenTag(name)|);
  }

  /**
   * The outcome of get_tag_string with a buffer of `bufferSize` bytes: the
   * whole value of the element, or None when the element cannot be located
   * or its value and terminator do not fit (see ReadValueMeaning).
   */
  function ReadValue(text: seq<char>, name: seq<char>, bufferSize: int): (r: Option<seq<char>>)
    ensures r.Some? ==> |r.value| < bufferSize
  {
    match ValueSpan(text, name)
    case None => None
    case Some(sp) =>
      if sp.end - sp.start >= bufferSize then None
      else Some(text[sp.start..sp.end])
  }

  /**
   * A read returns the text of the value span, whole; it fails exactly when
   * there is no value span or its value and terminator do not fit: the value
   * is never truncated.
   */
  lemma ReadValueMeaning(text: seq<char>, name: seq<char>, bufferSize: int)
    ensures ReadValue(text, name, bufferSize).Some? ==>
      exists sp :: IsValueSpan(text, name, sp) && ReadValue(text, name, bufferSize).value == text[sp.start..sp.end]
    ensures ReadValue(text, name, bufferSize).None? <==>
      forall sp :: IsValueSpan(text, name, sp) ==> sp.end - sp.start >= bufferSize
  {
    ValueSpanIsValueSpan(text, name);
  }

  /**
   * get_tag_string. `found` is true when the C function returns `buffer`
   * and false when it returns NULL. A non-positive `bufferSize` writes
   * nothing; every later failure leaves `buffer` holding the empty string;
   * success leaves the whole value followed by a NUL. The document is only read.
   */
  method GetTagString(doc: array<char>, name: seq<char>, buffer: array<char>, bufferSize: int)
    returns (found: bool)
    requires NUL in doc[..]
    requires buffer != doc
    requires bufferSize <= buffer.Length
    modifies buffer
    ensures bufferSize <= 0 ==> !found && buffer[..] == old(buffer[..])
    ensures bufferSize > 0 ==>
      match ReadValue(Text(doc[..]), name, bufferSize)
      case None => !found && buffer[..] == [NUL] + old(buffer[1..])
      case Some(v) => found && buffer[..] == v + [NUL] + old(buffer[|v| + 1..])
  {
    if bufferSize <= 0 {
      return false;
    }
    buffer[0] := NUL;
    assert buffer[..] == [NUL] + old(buffer[1..]);
    var text := Text(doc[..]);
    var start := FindTagValueStart(text, name);
    if start.None? {
      return false;
    }
    var vs := start.value;
    var close := CloseTag(name);
    if !Fits(close) {
      return false;
    }
    var end := Find(text, close, vs);
    if end.None? {
      return false;
    }
    var ve := end.value;
    if vs == ve {
      return true;
    }
    // ve >= vs by construction of the search, so the source's negative-length
    // check cannot fire.
    var valueLen := ve - vs;
    if valueLen >= bufferSize {
      return false;
    }
    assert ReadValue(text, name, bufferSize) == Some(text[vs..ve]);
    StoreString(buffer, text[vs..ve]);
    found := true;
  }

  /** The copy of a found value into the buffer, then its terminator. */
  method StoreString(buffer: array<char>, v: seq<char>)
    requires |v| < buffer.Length
    modifies buffer
    ensures buffer[..] == v + [NUL] + old(buffer[|v| + 1..])
  {
    MemCpy(buffer, 0, v);
    CopiedCells(old(buffer[..]), 0, v);
    buffer[|v|] := NUL;
  }

  /** The two distinct failures of set_tag_string. */
  datatype SetError =
    | Invalid   // -1: zero capacity, tag missing, pattern too long or closing tag missing
    | Overflow  // -2: the grown document would not fit the buffer

  /** The return code set_tag_string uses for each error. */
  function ErrorCode(e: SetError): (rc: int)
    ensures rc < 0
    ensures rc == -1 <==> e == Invalid
    ensures rc == -2 <==> e == Overflow
  {
    match e
    case Invalid => -1
    case Overflow => -2
  }

  /**
   * The document text after set_tag_string, or the error it reports. The
   * value span is replaced by `newValue`; when the value grows, the result
   * and its terminator must fit in `totalSize` bytes (see SetTextMeaning).
   */
  function SetText(text: seq<char>, totalSize: nat, name: seq<char>, newValue: seq<char>)
    : (r: Result<seq<char>, SetError>)
    requires totalSize == 0 || |text| < totalSize
    ensures r.Success? ==> |r.value| < totalSize
  {
    if totalSize == 0 then Failure(Invalid)
    else match ValueSpan(text, name)
      case None => Failure(Invalid)
      case Some(sp) =>
        var oldLen := sp.end - sp.start;
        var diff := |newValue| - oldLen;
        if diff > 0 && |text| + diff + 1 > totalSize then Failure(Overflow)
        else Success(text[..sp.start] + newValue + text[sp.end..])
  }

  /**
   * A write reports -1 exactly when the capacity is zero or the element has
   * no value span, and -2 exactly when the value grows and the document and
   * its terminator would exceed the capacity; otherwise it replaces the
   * value span by the new value.
   */
  lemma SetTextMeaning(text: seq<char>, totalSize: nat, name: seq<char>, newValue: seq<char>)
    requires totalSize == 0 || |text| < totalSize
    ensures var r := SetText(text, totalSize, name, newValue);
      r == Failure(Invalid) <==> totalSize == 0 || forall sp :: !IsValueSpan(text, name, sp)
    ensures var r := SetText(text, totalSize, name, newValue);
      r == Failure(Overflow) <==>
        && totalSize > 0
        && exists sp :: IsValueSpan(text, name, sp)
                        && |newValue| > sp.end - sp.start
                        && |text| + |newValue| - (sp.end - sp.start) + 1 > totalSize
    ensures var r := SetText(text, totalSize, name, newValue);
      r.Success? ==>
        exists sp :: IsValueSpan(text, name, sp) && r.value == text[..sp.start] + newValue + text[sp.end..]
  {
    ValueSpanIsValueSpan(text, name);
  }

  /**
   * set_tag_string. `totalSize` is the capacity of the document buffer. On
   * every failure the buffer is left exactly as it was; on success it holds
   * the new text and its terminator, and every byte after that terminator is
   * as it was. The document is still a NUL-terminated string inside its
   * capacity afterwards.
   */
  method SetTagString(doc: array<char>, totalSize: nat, name: seq<char>, newValue: seq<char>)
    returns (rc: int)
    requires NUL in doc[..]
    requires totalSize == 0 || TextLength(doc[..]) < totalSize <= doc.Length
    requires NUL !in newValue
    modifies doc
    ensures match SetText(old(Text(doc[..])), totalSize, name, newValue)
      case Failure(e) => rc == ErrorCode(e) && doc[..] == old(doc[..])
      case Success(t) => rc == 0 && doc[..] == t + [NUL] + old(doc[..])[|t| + 1..]
    ensures NUL in doc[..] && (totalSize == 0 || TextLength(doc[..]) < totalSize)
  {
    if totalSize == 0 {
      return -1;
    }
    ghost var before := doc[..];
    var text := Text(doc[..]);
    var start := FindTagValueStart(text, name);
    if start.None? {
      return -1;
    }
    var vs := start.value;
    var close := CloseTag(name);
    if !Fits(close) {
      return -1;
    }
    var end := Find(text, close, vs);
    if end.None? {
      return -1;
    }
    var ve := end.value;
    SetTextSpan(text, totalSize, name, newValue, vs, ve);
    rc := ResizeValue(doc, totalSize, vs, ve, newValue);
  }

  /**
   * The second half of set_tag_string (lines 89-112), once the value span
   * [vs, ve) of the document is known: the capacity check when the value
   * grows, then the in-place splice. Returns -2, leaving the buffer as it
   * was, when the grown document would not fit in `totalSize` bytes.
   */
  method ResizeValue(doc: array<char>, totalSize: nat, vs: nat, ve: nat, newValue: seq<char>)
    returns (rc: int)
    requires NUL in doc[..] && TextLength(doc[..]) < totalSize <= doc.Length
    requires vs <= ve <= TextLength(doc[..])
    requires NUL !in newValue
    modifies doc
    ensures var text := old(Text(doc[..]));
      var oldLen := ve - vs;
      if |newValue| > oldLen && |text| + |newValue| - oldLen + 1 > totalSize then
        rc == -2 && doc[..] == old(doc[..])
      else
        var t := text[..vs] + newValue + text[ve..];
        rc == 0 && doc[..] == t + [NUL] + old(doc[..])[|t| + 1..]
    ensures NUL in doc[..] && TextLength(doc[..]) < totalSize
  {
    var overflow := GrowthOverflows(doc, totalSize, |newValue| - (ve - vs));
    if overflow {
      return -2;
    }
    SpliceText(doc, vs, ve, newValue);
    rc := 0;
  }

  /**
   * The splice of a value span that fits: the document text becomes the
   * spliced text, still terminated, and the bytes after it are as they were.
   */
  method SpliceText(doc: array<char>, vs: nat, ve: nat, newValue: seq<char>)
    requires NUL in doc[..] && vs <= ve <= TextLength(doc[..])
    requires TextLength(doc[..]) - (ve - vs) + |newValue| < doc.Length
    requires NUL !in newValue
    modifies doc
    ensures var text := old(Text(doc[..]));
      var t := text[..vs] + newValue + text[ve..];
      && doc[..] == t + [NUL] + old(doc[..])[|t| + 1..]
      && NUL in doc[..] && TextLength(doc[..]) == |t|
  {
    ghost var before := doc[..];
    ghost var text := Text(before);
    assert NulFreeBetween(doc, ve, |text|);
    ReplaceSpan(doc, vs, ve, |text|, newValue);
    SplicedDocument(before, vs, ve, newValue);
  }

  /**
   * The capacity check of set_tag_string (lines 93-101): only a growing
   * value is checked, and it overflows when the current string length plus
   * the growth plus the terminator exceeds the buffer's capacity. The
   * document is only read.
   */
  method GrowthOverflows(doc: array<char>, totalSize: nat, diff: int) returns (overflow: bool)
    requires NUL in doc[..]
    ensures overflow <==> diff > 0 && TextLength(doc[..]) + diff + 1 > totalSize
  {
    overflow := false;
    if diff > 0 {
      var n := Strlen(doc, 0);
      FirstNulUnique(doc, 0, n, TextLength(doc[..]));
      overflow := n + diff + 1 > totalSize;
    }
  }

  /**
   * The splice of a document buffer holds the spliced text and its
   * terminator, so it is again a C string, of the spliced length.
   */
  lemma SplicedDocument(s: seq<char>, vs: nat, ve: nat, newValue: seq<char>)
    requires NUL in s && vs <= ve <= |Text(s)|
    requires |Text(s)| - (ve - vs) + |newValue| < |s|
    requires NUL !in newValue
    ensures var t := Text(s)[..vs] + newValue + Text(s)[ve..];
      && Spliced(s, vs, ve, |Text(s)|, newValue) == t + [NUL] + s[|t| + 1..]
      && NUL in Spliced(s, vs, ve, |Text(s)|, newValue)
      && TextLength(Spliced(s, vs, ve, |Text(s)|, newValue)) == |t|
  {
    var t := Text(s)[..vs] + newValue + Text(s)[ve..];
    SplicedText(s, vs, ve, newValue);
    TextOfTerminated(t, s[|t| + 1..]);
  }

  /** Once the span is located, SetText's outcome depends only on the capacity check. */
  lemma SetTextSpan(text: seq<char>, totalSize: nat, name: seq<char>, newValue: seq<char>, vs: nat, ve: nat)
    requires 0 < totalSize && |text| < totalSize
    requires FindTagValueStart(text, name) == Some(vs)
    requires Fits(CloseTag(name)) && Find(text, CloseTag(name), vs) == Some(ve)
    ensures ValueSpan(text, name) == Some(Span(vs, ve))
    ensures SetText(text, totalSize, name, newValue) ==
      var oldLen := ve - vs;
      if |newValue| > oldLen && |text| + |newValue| - oldLen + 1 > totalSize then Failure(Overflow)
      else Success(text[..vs] + newValue + text[ve..])
  {
  }

  /**
   * The buffer after its value span [vs, ve) is replaced by `newValue`, for a
   * document whose terminator is at `n`: the prefix, the new value, the old
   * tail through the terminator, then the untouched bytes beyond the new
   * terminator.
   */
  function Spliced(s: seq<char>, vs: nat, ve: nat, n: nat, newValue: seq<char>): (r: seq<char>)
    requires vs <= ve <= n < |s|
    requires n - (ve - vs) + |newValue| < |s|
    ensures |r| == |s|
  {
    s[..vs] + newValue + s[ve..n + 1] + s[n - (ve - vs) + |newValue| + 1..]
  }

  /**
   * Cell by cell, the splice holds the prefix, the new value, the old tail
   * through its terminator, and then the bytes that were already there.
   */
  lemma SplicedCells(s: seq<char>, vs: nat, ve: nat, n: nat, newValue: seq<char>)
    requires vs <= ve <= n < |s|
    requires n - (ve - vs) + |newValue| < |s|
    ensures var r := Spliced(s, vs, ve, n, newValue);
      forall k :: 0 <= k < |s| ==>
        r[k] == (if k < vs then s[k]
                 else if k < vs + |newValue| then newValue[k - vs]
                 else if k <= n - (ve - vs) + |newValue| then s[k - vs - |newValue| + ve]
                 else s[k])
  {
    var r := Spliced(s, vs, ve, n, newValue);
    var e := n - (ve - vs) + |newValue| + 1;
    forall k | 0 <= k < |s|
      ensures r[k] == (if k < vs then s[k]
                       else if k < vs + |newValue| then newValue[k - vs]
                       else if k < e then s[k - vs - |newValue| + ve]
                       else s[k])
    {
      if k < vs {
        assert r[k] == s[..vs][k];
      } else if k < vs + |newValue| {
        assert r[k] == newValue[k - vs];
      } else if k < e {
        assert r[k] == s[ve..n + 1][k - vs - |newValue|];
      } else {
        assert r[k] == s[e..][k - e];
      }
    }
  }

  /** The splice of a document buffer holds the spliced text and its terminator. */
  lemma SplicedText(s: seq<char>, vs: nat, ve: nat, newValue: seq<char>)
    requires NUL in s && vs <= ve <= |Text(s)|
    requires |Text(s)| - (ve - vs) + |newValue| < |s|
    ensures var t := Text(s)[..vs] + newValue + Text(s)[ve..];
      Spliced(s, vs, ve, |Text(s)|, newValue) == t + [NUL] + s[|t| + 1..]
  {
    var n := |Text(s)|;
    assert s[ve..n + 1] == Text(s)[ve..] + [NUL];
    assert s[..vs] == Text(s)[..vs];
  }

  /** Moving a range onto itself changes nothing. */
  lemma MoveInPlace(s: seq<char>, at: nat, len: nat)
    requires at + len <= |s|
    ensures Moved(s, at, at, len) == s
  {
    assert Moved(s, at, at, len) == s[..at] + s[at..at + len] + s[at + len..];
    assert s == s[..at] + s[at..at + len] + s[at + len..];
  }

  /** Moving the tail and then copying the new value in yields the splice. */
  lemma MoveThenCopy(s: seq<char>, vs: nat, ve: nat, n: nat, newValue: seq<char>)
    requires vs <= ve <= n < |s|
    requires n - (ve - vs) + |newValue| < |s|
    ensures Copied(Moved(s, vs + |newValue|, ve, n - ve + 1), vs, newValue)
            == Spliced(s, vs, ve, n, newValue)
  {
    var m := Moved(s, vs + |newValue|, ve, n - ve + 1);
    var c := Copied(m, vs, newValue);
    var r := Spliced(s, vs, ve, n, newValue);
    MovedCells(s, vs + |newValue|, ve, n - ve + 1);
    CopiedCells(m, vs, newValue);
    SplicedCells(s, vs, ve, n, newValue);
    forall k | 0 <= k < |s|
      ensures c[k] == r[k]
    {
    }
  }

  /** No NUL among doc[from..n]. */
  ghost predicate NulFreeBetween(doc: array<char>, from: nat, n: nat)
    reads doc
  {
    forall k :: from <= k < n && k < doc.Length ==> doc[k] != NUL
  }

  /** strlen(doc + from) for a string known to end at `n`. */
  method TailLength(doc: array<char>, from: nat, ghost n: nat) returns (len: nat)
    requires from <= n < doc.Length && doc[n] == NUL
    requires NulFreeBetween(doc, from, n)
    ensures len == n - from
  {
    assert NUL in doc[from..] by { assert doc[from..][n - from] == NUL; }
    len := Strlen(doc, from);
    FirstNulUnique(doc, from, from + len, n);
  }

  /**
   * The memmove of set_tag_string (lines 103-108): when the length changes,
   * the tail from the old value end through the terminator at `n` moves to
   * just after where the new value will end; otherwise nothing moves.
   */
  method MoveTail(doc: array<char>, vs: nat, ve: nat, ghost n: nat, newLen: nat)
    requires vs <= ve <= n < doc.Length && doc[n] == NUL
    requires NulFreeBetween(doc, ve, n)
    requires n - (ve - vs) + newLen < doc.Length
    modifies doc
    ensures doc[..] == Moved(old(doc[..]), vs + newLen, ve, n - ve + 1)
  {
    if newLen != ve - vs {
      var restLen := TailLength(doc, ve, n);
      MemMove(doc, vs + newLen, ve, restLen + 1);
    } else {
      MoveInPlace(doc[..], ve, n - ve + 1);
    }
  }

  /**
   * The in-place splice that ends set_tag_string (lines 103-110): the tail
   * moves first, then the new value is copied in, so a growing value never
   * overwrites bytes the move still has to read.
   */
  method ReplaceSpan(doc: array<char>, vs: nat, ve: nat, ghost n: nat, newValue: seq<char>)
    requires vs <= ve <= n < doc.Length && doc[n] == NUL
    requires NulFreeBetween(doc, ve, n)
    requires n - (ve - vs) + |newValue| < doc.Length
    modifies doc
    ensures doc[..] == Spliced(old(doc[..]), vs, ve, n, newValue)
  {
    ghost var s := doc[..];
    MoveThenCopy(s, vs, ve, n, newValue);
    MoveTail(doc, vs, ve, n, |newValue|);
    ghost var m := doc[..];
    MemCpy(doc, vs, newValue);
    assert doc[..] == Copied(m, vs, newValue);
  }
}
