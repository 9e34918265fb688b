/**
 * Properties that relate several calls of the tag editor: reading back a
 * written value, rewriting a value with itself, the elements a write leaves
 * alone, and what the literal `<name>` search does and does not match.
 *
 * Most lemmas here are not proved by induction; they carry
 * `{:induction false}` only so that Dafny does not add induction hypotheses
 * over their sequence parameters, which slow the solver down.
 */
module XmlProperties {
  import opened Wrappers
  import opened CString
  import opened XmlUtils

  /** The element `<name>value</name>` as text. */
  function Element(name: seq<char>, value: seq<char>): seq<char>
  {
    OpenTag(name) + value + CloseTag(name)
  }

  /** Texts that agree on a prefix agree on every occurrence lying inside it. */
  lemma SharedPrefixOccurs(a: seq<char>, b: seq<char>, pat: seq<char>, j: nat, k: nat)
    requires j + |pat| <= k <= |a| && k <= |b| && a[..k] == b[..k]
    ensures OccursAt(a, pat, j) <==> OccursAt(b, pat, j)
  {
    forall i | j <= i < j + |pat|
      ensures a[i] == b[i]
    {
      assert a[..k][i] == b[..k][i];
    }
    assert a[j..j + |pat|] == b[j..j + |pat|];
  }

  /** A pattern does not occur where one of its characters differs from the text. */
  lemma Mismatch(s: seq<char>, pat: seq<char>, j: nat, k: nat)
    requires k < |pat| && j + k < |s| && s[j + k] != pat[k]
    ensures !OccursAt(s, pat, j)
  {
    if j + |pat| <= |s| {
      assert s[j..j + |pat|][k] == s[j + k];
    }
  }

  /** A value start found in a prefix of the text is found in any text sharing that prefix. */
  lemma {:induction false} ValueStartOfSharedPrefix(a: seq<char>, b: seq<char>, name: seq<char>, vs: nat)
    requires FindTagValueStart(a, name) == Some(vs)
    requires vs <= |b| && a[..vs] == b[..vs]
    ensures FindTagValueStart(b, name) == Some(vs)
  {
    var open := OpenTag(name);
    var p := vs - |open|;
    ValueStartIsFirst(a, name);
    assert FirstOccurrence(b, open, 0, p) by {
      SharedPrefixOccurs(a, b, open, p, vs);
      forall j | 0 <= j < p
        ensures !OccursAt(b, open, j)
      {
        SharedPrefixOccurs(a, b, open, j, vs);
      }
    }
    FindReturnsFirst(b, open, 0, p);
  }

  /** A value span whose closing tag ends within a shared prefix is the same in both texts. */
  lemma {:induction false} ValueSpanOfSharedPrefix(a: seq<char>, b: seq<char>, name: seq<char>, k: nat)
    requires ValueSpan(a, name).Some?
    requires ValueSpan(a, name).value.end + |CloseTag(name)| <= k <= |b|
    requires k <= |a| && a[..k] == b[..k]
    ensures ValueSpan(b, name) == ValueSpan(a, name)
  {
    var sp := ValueSpan(a, name).value;
    var close := CloseTag(name);
    ValueSpanIsValueSpan(a, name);
    assert a[..sp.start] == b[..sp.start] by {
      assert a[..sp.start] == a[..k][..sp.start];
      assert b[..sp.start] == b[..k][..sp.start];
    }
    ValueStartOfSharedPrefix(a, b, name, sp.start);
    SharedPrefixOccurs(a, b, close, sp.end, k);
    forall j | sp.start <= j < sp.end
      ensures !OccursAt(b, close, j)
    {
      SharedPrefixOccurs(a, b, close, j, k);
    }
    FindReturnsFirst(b, close, sp.start, sp.end);
  }

  /** A successful write replaces the located value span with the new value. */
  lemma SetTextSplices(text: seq<char>, totalSize: nat, name: seq<char>, newValue: seq<char>)
    requires totalSize == 0 || |text| < totalSize
    requires SetText(text, totalSize, name, newValue).Success?
    ensures ValueSpan(text, name).Some?
    ensures var sp := ValueSpan(text, name).value;
      SetText(text, totalSize, name, newValue).value == text[..sp.start] + newValue + text[sp.end..]
  {
  }

  /**
   * Replacing a value span by a value without `<` leaves a value span that
   * starts where the old one did and covers exactly the new value.
   */
  lemma {:induction false} SpanAfterSplice(text: seq<char>, name: seq<char>, sp: Span, newValue: seq<char>)
    requires ValueSpan(text, name) == Some(sp)
    requires '<' !in newValue
    ensures ValueSpan(text[..sp.start] + newValue + text[sp.end..], name)
            == Some(Span(sp.start, sp.start + |newValue|))
  {
    SpliceKeepsStart(text, name, sp, newValue);
    assert Fits(CloseTag(name)) && OccursAt(text, CloseTag(name), sp.end) by {
      ValueSpanIsValueSpan(text, name);
    }
    SpliceEndsValue(text, CloseTag(name), sp.start, sp.end, newValue);
    ValueSpanFromSearches(text[..sp.start] + newValue + text[sp.end..], name, sp.start, sp.start + |newValue|);
  }

  /** Splicing a new value leaves the value start where it was. */
  lemma SpliceKeepsStart(text: seq<char>, name: seq<char>, sp: Span, newValue: seq<char>)
    requires ValueSpan(text, name) == Some(sp)
    ensures FindTagValueStart(text[..sp.start] + newValue + text[sp.end..], name) == Some(sp.start)
  {
    var t := text[..sp.start] + newValue + text[sp.end..];
    assert t[..sp.start] == text[..sp.start];
    ValueStartOfSharedPrefix(text, t, name, sp.start);
  }

  /** After the splice, the first closing tag from the value start directly follows the new value. */
  lemma SpliceEndsValue(text: seq<char>, close: seq<char>, vs: nat, ve: nat, newValue: seq<char>)
    requires vs <= ve && OccursAt(text, close, ve) && |close| > 0 && close[0] == '<'
    requires '<' !in newValue
    ensures Find(text[..vs] + newValue + text[ve..], close, vs) == Some(vs + |newValue|)
  {
    var t := text[..vs] + newValue + text[ve..];
    OccursAfterSplice(text, vs, ve, newValue, close);
    assert t[vs..vs + |newValue|] == newValue;
    ValueThenClose(t, close, vs, newValue);
  }

  /** What occurred at the end of a replaced range occurs right after its replacement. */
  lemma OccursAfterSplice(text: seq<char>, vs: nat, ve: nat, newValue: seq<char>, pat: seq<char>)
    requires vs <= ve && OccursAt(text, pat, ve)
    ensures OccursAt(text[..vs] + newValue + text[ve..], pat, vs + |newValue|)
  {
    var t := text[..vs] + newValue + text[ve..];
    assert t[vs + |newValue|..] == text[ve..];
    assert t[vs + |newValue|..vs + |newValue| + |pat|] == text[ve..][..|pat|];
  }

  /** The value span is what the two searches return. */
  lemma ValueSpanFromSearches(text: seq<char>, name: seq<char>, vs: nat, ve: nat)
    requires FindTagValueStart(text, name) == Some(vs)
    requires Fits(CloseTag(name)) && Find(text, CloseTag(name), vs) == Some(ve)
    ensures ValueSpan(text, name) == Some(Span(vs, ve))
  {
  }

  /**
   * A value without `<` that is directly followed by a closing tag (any
   * pattern starting with `<`, such as `</name>`) ends at that tag: the
   * search from the value start finds no earlier one.
   */
  lemma ValueThenClose(text: seq<char>, close: seq<char>, vs: nat, value: seq<char>)
    requires vs + |value| <= |text| && text[vs..vs + |value|] == value
    requires '<' !in value && |close| > 0 && close[0] == '<'
    requires OccursAt(text, close, vs + |value|)
    ensures Find(text, close, vs) == Some(vs + |value|)
  {
    forall j | vs <= j < vs + |value|
      ensures !OccursAt(text, close, j)
    {
      assert text[j] == value[j - vs];
      Mismatch(text, close, j, 0);
    }
    FindReturnsFirst(text, close, vs, vs + |value|);
  }

  /**
   * After a successful write of a value without `<`, the element's value span
   * starts where it did and covers exactly the new value.
   */
  lemma {:induction false} SpanAfterSet(text: seq<char>, totalSize: nat, name: seq<char>, newValue: seq<char>)
    requires totalSize == 0 || |text| < totalSize
    requires SetText(text, totalSize, name, newValue).Success?
    requires '<' !in newValue
    ensures ValueSpan(text, name).Some?
    ensures var vs := ValueSpan(text, name).value.start;
      ValueSpan(SetText(text, totalSize, name, newValue).value, name) == Some(Span(vs, vs + |newValue|))
  {
    SetTextSplices(text, totalSize, name, newValue);
    SpanAfterSplice(text, name, ValueSpan(text, name).value, newValue);
  }

  /**
   * Round trip: reading an element right after a successful write of a value
   * without `<` yields exactly that value, given a buffer that can hold it and
   * its terminator, and fails (never truncates) otherwise.
   */
  lemma {:induction false} SetThenGet(text: seq<char>, totalSize: nat, name: seq<char>, newValue: seq<char>, bufferSize: int)
    requires totalSize == 0 || |text| < totalSize
    requires SetText(text, totalSize, name, newValue).Success?
    requires '<' !in newValue
    ensures ReadValue(SetText(text, totalSize, name, newValue).value, name, bufferSize)
            == if |newValue| < bufferSize then Some(newValue) else None
  {
    var t := SetText(text, totalSize, name, newValue).value;
    var vs := ValueSpan(text, name).value.start;
    SpanAfterSet(text, totalSize, name, newValue);
    assert t == text[..vs] + newValue + text[ValueSpan(text, name).value.end..];
    assert t[vs..vs + |newValue|] == newValue;
  }

  /** Idempotence: writing the same value (without `<`) a second time changes nothing. */
  lemma {:induction false} SetIdempotent(text: seq<char>, totalSize: nat, name: seq<char>, newValue: seq<char>)
    requires totalSize == 0 || |text| < totalSize
    requires SetText(text, totalSize, name, newValue).Success?
    requires '<' !in newValue
    ensures var t := SetText(text, totalSize, name, newValue).value;
      SetText(t, totalSize, name, newValue) == Success(t)
  {
    var t := SetText(text, totalSize, name, newValue).value;
    var sp := ValueSpan(text, name).value;
    SpanAfterSet(text, totalSize, name, newValue);
    assert t == text[..sp.start] + newValue + text[sp.end..];
    Parts(text[..sp.start], newValue, text[sp.end..]);
    SetTextOfSpan(t, totalSize, name, newValue, Span(sp.start, sp.start + |newValue|));
  }

  /**
   * A write leaves alone every element whose closing tag ends before the
   * written element's value: it reads back exactly as before.
   */
  lemma {:induction false} EarlierElementUnchanged(text: seq<char>, totalSize: nat, name: seq<char>,
                                                   newValue: seq<char>, other: seq<char>)
    requires totalSize == 0 || |text| < totalSize
    requires SetText(text, totalSize, name, newValue).Success?
    requires ValueSpan(text, other).Some?
    requires ValueSpan(text, other).value.end + |CloseTag(other)| <= ValueSpan(text, name).value.start
    ensures ValueSpan(SetText(text, totalSize, name, newValue).value, other) == ValueSpan(text, other)
  {
    var t := SetText(text, totalSize, name, newValue).value;
    var sp := ValueSpan(text, name).value;
    assert t == text[..sp.start] + newValue + text[sp.end..];
    assert t[..sp.start] == text[..sp.start];
    ValueSpanOfSharedPrefix(text, t, other, sp.start);
  }

  /** The three parts of a concatenation can be sliced back out of it. */
  lemma Parts(a: seq<char>, b: seq<char>, c: seq<char>)
    ensures (a + b + c)[..|a|] == a
    ensures (a + b + c)[|a|..|a| + |b|] == b
    ensures (a + b + c)[|a| + |b|..] == c
  {
  }

  /** An element inside surrounding text, regrouped around its value. */
  lemma Regroup(pre: seq<char>, name: seq<char>, value: seq<char>, post: seq<char>)
    ensures pre + Element(name, value) + post == (pre + OpenTag(name)) + value + (CloseTag(name) + post)
  {
    var a, c := OpenTag(name), CloseTag(name);
    assert Element(name, value) == a + value + c;
    assert pre + (a + value + c) + post == (pre + a) + value + (c + post);
  }

  /** Once its value span is known, ReadValue is that span's text if it fits the buffer. */
  lemma ReadValueOfSpan(text: seq<char>, name: seq<char>, sp: Span, bufferSize: int)
    requires ValueSpan(text, name) == Some(sp)
    ensures ReadValue(text, name, bufferSize)
            == if sp.end - sp.start < bufferSize then Some(text[sp.start..sp.end]) else None
  {
  }

  /** Once its value span is known, SetText splices unless the grown text would overflow. */
  lemma SetTextOfSpan(text: seq<char>, totalSize: nat, name: seq<char>, newValue: seq<char>, sp: Span)
    requires 0 < totalSize && |text| < totalSize
    requires ValueSpan(text, name) == Some(sp)
    ensures SetText(text, totalSize, name, newValue)
            == if |newValue| > sp.end - sp.start && |text| + |newValue| - (sp.end - sp.start) + 1 > totalSize
               then Failure(Overflow)
               else Success(text[..sp.start] + newValue + text[sp.end..])
  {
  }

  /**
   * `pre` holds no `<name>` of its own, so the first `<name>` of a text that
   * starts with `pre + <name>` is the one right after `pre`.
   */
  ghost predicate FirstOpenAfter(pre: seq<char>, name: seq<char>)
  {
    FindTagValueStart(pre + OpenTag(name), name) == Some(|pre| + |OpenTag(name)|)
  }

  /**
   * For a name without `<`, a prefix holding no `<name>` of its own is
   * followed by the first `<name>` of the text: no occurrence can straddle
   * the end of the prefix, because the `<` that starts the appended tag
   * would have to match a character of the name or the final `>`.
   */
  lemma {:induction false} FirstOpenAfterAbsent(pre: seq<char>, name: seq<char>)
    requires Fits(OpenTag(name)) && '<' !in name
    requires forall j :: !OccursAt(pre, OpenTag(name), j)
    ensures FirstOpenAfter(pre, name)
  {
    var open := OpenTag(name);
    var s := pre + open;
    assert OccursAt(s, open, |pre|) by { assert s[|pre|..|pre| + |open|] == open; }
    forall j | 0 <= j < |pre|
      ensures !OccursAt(s, open, j)
    {
      if j + |open| <= |pre| {
        assert !OccursAt(pre, open, j);
        assert s[j..j + |open|] == pre[j..j + |open|];
      } else {
        var k := |pre| - j;
        assert s[j + k] == '<';
        assert open[k] != '<' by {
          if k <= |name| {
            assert open[k] == name[k - 1];
          }
        }
        Mismatch(s, open, j, k);
      }
    }
    FindReturnsFirst(s, open, 0, |pre|);
  }

  /**
   * The value span of element `name` in `pre + <name>value</name> + post`,
   * when `value` holds no `<` and `pre` no `<name>`.
   */
  lemma {:induction false} ElementSpan(pre: seq<char>, name: seq<char>, value: seq<char>, post: seq<char>)
    requires FirstOpenAfter(pre, name)
    requires Fits(CloseTag(name))
    requires '<' !in value
    ensures var vs := |pre| + |OpenTag(name)|;
      ValueSpan(pre + Element(name, value) + post, name) == Some(Span(vs, vs + |value|))
  {
    var close := CloseTag(name);
    Regroup(pre, name, value, post);
    assert (close + post)[..|close|] == close;
    SpanOfParts(pre + OpenTag(name), value, close + post, name);
  }

  /**
   * In `pre + <name>value</name> + post`, when `pre` holds no `<name>`, the
   * value start is just past the appended opening tag, and the text from
   * there on is the value, its closing tag and `post`.
   */
  lemma {:induction false} FindElement(pre: seq<char>, name: seq<char>, value: seq<char>, post: seq<char>)
    requires FirstOpenAfter(pre, name)
    ensures var vs := |pre| + |OpenTag(name)|;
      && FindTagValueStart(pre + Element(name, value) + post, name) == Some(vs)
      && (pre + Element(name, value) + post)[vs..] == value + CloseTag(name) + post
  {
    var a := pre + OpenTag(name);
    var rest := value + (CloseTag(name) + post);
    Regroup(pre, name, value, post);
    assert a + value + (CloseTag(name) + post) == a + rest;
    StartOfExtension(a, rest, name);
    assert (a + rest)[|a|..] == rest;
  }

  /**
   * A text `a + value + b`, where `a` ends with the first `<name>`, `value`
   * holds no `<` and `b` starts with `</name>`, has `value` as value span.
   */
  lemma SpanOfParts(a: seq<char>, value: seq<char>, b: seq<char>, name: seq<char>)
    requires FindTagValueStart(a, name) == Some(|a|)
    requires Fits(CloseTag(name))
    requires '<' !in value
    requires |CloseTag(name)| <= |b| && b[..|CloseTag(name)|] == CloseTag(name)
    ensures ValueSpan(a + value + b, name) == Some(Span(|a|, |a| + |value|))
  {
    assert a + value + b == a + (value + b);
    StartOfExtension(a, value + b, name);
    CloseAfterValue(a, value, b, name);
    ValueSpanFromSearches(a + value + b, name, |a|, |a| + |value|);
  }

  /** A value start at the very end of `a` stays the value start when text is appended. */
  lemma StartOfExtension(a: seq<char>, rest: seq<char>, name: seq<char>)
    requires FindTagValueStart(a, name) == Some(|a|)
    ensures FindTagValueStart(a + rest, name) == Some(|a|)
  {
    assert (a + rest)[..|a|] == a[..|a|];
    ValueStartOfSharedPrefix(a, a + rest, name, |a|);
  }

  /** In `a + value + b`, the first `</name>` from the end of `a` is the one starting `b`. */
  lemma CloseAfterValue(a: seq<char>, value: seq<char>, b: seq<char>, name: seq<char>)
    requires '<' !in value
    requires |CloseTag(name)| <= |b| && b[..|CloseTag(name)|] == CloseTag(name)
    ensures Find(a + value + b, CloseTag(name), |a|) == Some(|a| + |value|)
  {
    var text := a + value + b;
    JoinedParts(a, value, b, CloseTag(name));
    ValueThenClose(text, CloseTag(name), |a|, value);
  }

  /** In `a + value + b`, `value` sits right after `a`, and a pattern starting `b` occurs right after `value`. */
  lemma JoinedParts(a: seq<char>, value: seq<char>, b: seq<char>, pat: seq<char>)
    requires |pat| <= |b| && b[..|pat|] == pat
    ensures (a + value + b)[|a|..|a| + |value|] == value
    ensures OccursAt(a + value + b, pat, |a| + |value|)
  {
    var text := a + value + b;
    var ve := |a| + |value|;
    Parts(a, value, b);
    assert text[ve..ve + |pat|] == text[ve..][..|pat|];
  }

  /**
   * Reading element `name` of `pre + <name>value</name> + post` (value
   * without `<`, `pre` without `<name>`) yields `value` exactly when the
   * buffer has room for it and its terminator.
   */
  lemma {:induction false} ReadElement(pre: seq<char>, name: seq<char>, value: seq<char>, post: seq<char>,
                                       bufferSize: int)
    requires FirstOpenAfter(pre, name)
    requires Fits(CloseTag(name))
    requires '<' !in value
    ensures ReadValue(pre + Element(name, value) + post, name, bufferSize)
            == if |value| < bufferSize then Some(value) else None
  {
    ElementSpan(pre, name, value, post);
    var text := pre + Element(name, value) + post;
    var vs := |pre| + |OpenTag(name)|;
    ReadValueOfSpan(text, name, Span(vs, vs + |value|), bufferSize);
    Regroup(pre, name, value, post);
    Parts(pre + OpenTag(name), value, CloseTag(name) + post);
  }

  /**
   * Writing `newValue` as element `name` of `pre + <name>value</name> + post`
   * yields `pre + <name>newValue</name> + post`, unless the value grows and
   * the result and its terminator would need more than `totalSize` bytes,
   * which is an overflow; a result needing exactly `totalSize` bytes fits.
   */
  lemma {:induction false} WriteElement(pre: seq<char>, name: seq<char>, value: seq<char>, post: seq<char>,
                                        totalSize: nat, newValue: seq<char>)
    requires FirstOpenAfter(pre, name)
    requires Fits(CloseTag(name))
    requires '<' !in value
    requires 0 < totalSize && |pre + Element(name, value) + post| < totalSize
    ensures SetText(pre + Element(name, value) + post, totalSize, name, newValue)
            == if |newValue| > |value| && |pre + Element(name, newValue) + post| + 1 > totalSize
               then Failure(Overflow)
               else Success(pre + Element(name, newValue) + post)
  {
    ElementSpan(pre, name, value, post);
    var text := pre + Element(name, value) + post;
    var vs := |pre| + |OpenTag(name)|;
    SetTextOfSpan(text, totalSize, name, newValue, Span(vs, vs + |value|));
    Regroup(pre, name, value, post);
    Parts(pre + OpenTag(name), value, CloseTag(name) + post);
    Regroup(pre, name, newValue, post);
  }

  /**
   * A document without the literal `<name>` has no value span, so reading
   * fails and writing returns -1.
   */
  lemma MissingElement(text: seq<char>, name: seq<char>)
    requires forall j :: !OccursAt(text, OpenTag(name), j)
    ensures FindTagValueStart(text, name) == None
    ensures ValueSpan(text, name) == None
  {
    ValueStartIsFirst(text, name);
  }

  /**
   * A name holding a NUL is never found in a document text, which holds
   * none: its opening pattern has a NUL that no character of the text
   * matches.
   */
  lemma NulNameNotFound(text: seq<char>, name: seq<char>)
    requires NUL !in text
    requires NUL in name
    ensures FindTagValueStart(text, name) == None
    ensures ValueSpan(text, name) == None
  {
    var open := OpenTag(name);
    var k :| 0 <= k < |name| && name[k] == NUL;
    assert open[k + 1] == NUL;
    forall j: nat
      ensures !OccursAt(text, open, j)
    {
      if j + |open| <= |text| {
        Mismatch(text, open, j, k + 1);
      }
    }
    MissingElement(text, name);
  }

  /**
   * An opening tag with no closing tag after it (and no `<` in what follows)
   * is malformed: there is no value span, so reading and writing fail.
   */
  lemma {:induction false} UnclosedElement(pre: seq<char>, name: seq<char>, rest: seq<char>)
    requires FirstOpenAfter(pre, name)
    requires '<' !in rest
    ensures ValueSpan(pre + OpenTag(name) + rest, name) == None
  {
    var open, close := OpenTag(name), CloseTag(name);
    var text := pre + open + rest;
    var vs := |pre| + |open|;
    assert text[..vs] == (pre + open)[..vs];
    ValueStartOfSharedPrefix(pre + open, text, name, vs);
    forall j | vs <= j
      ensures !OccursAt(text, close, j)
    {
      if j < |text| {
        assert text[j] == rest[j - vs];
        Mismatch(text, close, j, 0);
      }
    }
    FindIsFirst(text, close, vs);
  }

  /**
   * The search is for the literal `<name>`: an element whose name merely
   * starts with `name` (`<nameOther>...</nameOther>`) is not found.
   */
  lemma {:induction false} LongerNameNotFound(name: seq<char>, more: seq<char>, value: seq<char>)
    requires '<' !in name && '/' !in name && '<' !in more && '<' !in value
    requires more != [] && more[0] != '>'
    ensures FindTagValueStart(Element(name + more, value), name) == None
  {
    var text := Element(name + more, value);
    var open := OpenTag(name);
    var q := |OpenTag(name + more)| + |value|;
    forall j | 0 <= j
      ensures !OccursAt(text, open, j)
    {
      if j + |open| <= |text| {
        if j == 0 {
          Mismatch(text, open, j, |name| + 1);
        } else if j == q {
          Mismatch(text, open, j, 1);
        } else {
          if j <= |name + more| {
            assert text[j] == (name + more)[j - 1];
          } else if |name + more| + 1 < j < q {
            assert text[j] == value[j - |name + more| - 2];
          } else if q < j {
            assert text[j] == CloseTag(name + more)[j - q];
          }
          Mismatch(text, open, j, 0);
        }
      }
    }
    ValueStartIsFirst(text, name);
  }

  /**
   * The search is for the literal `<name>`: an opening tag carrying
   * attributes (`<name attrs>`) is not found.
   */
  lemma {:induction false} AttributedTagNotFound(name: seq<char>, attrs: seq<char>, value: seq<char>)
    requires '<' !in name && '/' !in name && '<' !in attrs && '<' !in value
    ensures FindTagValueStart(['<'] + name + [' '] + attrs + ['>'] + value + CloseTag(name), name) == None
  {
    var open := OpenTag(name);
    var text := ['<'] + name + [' '] + attrs + ['>'] + value + CloseTag(name);
    var q := |name| + |attrs| + 3 + |value|;
    forall j | 0 <= j
      ensures !OccursAt(text, open, j)
    {
      if j + |open| <= |text| {
        if j == 0 {
          Mismatch(text, open, j, |name| + 1);
        } else if j == q {
          Mismatch(text, open, j, 1);
        } else {
          if j <= |name| {
            assert text[j] == name[j - 1];
          } else if |name| + 1 < j < |name| + 2 + |attrs| {
            assert text[j] == attrs[j - |name| - 2];
          } else if |name| + 2 + |attrs| < j < q {
            assert text[j] == value[j - |name| - |attrs| - 3];
          } else if q < j {
            assert text[j] == CloseTag(name)[j - q];
          }
          Mismatch(text, open, j, 0);
        }
      }
    }
    ValueStartIsFirst(text, name);
  }

  /**
   * The 128-byte pattern arrays bound the names that can match: a name of
   * 126 characters or more cannot even be searched for, and one of 125 has
   * an opening pattern that fits but a closing pattern that does not, so
   * neither reading nor writing it can succeed.
   */
  lemma NameLengthLimit(text: seq<char>, name: seq<char>, bufferSize: int, totalSize: nat, newValue: seq<char>)
    requires |name| >= PatternBufferSize - 3
    requires totalSize == 0 || |text| < totalSize
    ensures |name| >= PatternBufferSize - 2 ==> FindTagValueStart(text, name) == None
    ensures ValueSpan(text, name) == None
    ensures ReadValue(text, name, bufferSize) == None
    ensures SetText(text, totalSize, name, newValue) == Failure(Invalid)
  {
  }
}
