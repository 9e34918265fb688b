/**
 * Concrete documents from the editor's regression tests
 * (tests/test_xml_utils.c), each derived from the general element lemmas.
 * A document is written as the literal text around one element
 * `Element(name, value)`, that is `<name>value</name>`: the values read, the
 * documents written, the overflow boundary of the document buffer, and the
 * tags the literal search does not match.
 */
module XmlScenarios {
  import opened Wrappers
  import opened CString
  import opened XmlUtils
  import opened XmlProperties

  // Finding the value start (tests/test_xml_utils.c:7-52)

  /** The value start of `<test>value</test>` is index 6, where `value</test>` begins. */
  lemma FindSimpleValue()
    ensures FindTagValueStart(Element("test", "value"), "test") == Some(6)
    ensures Element("test", "value")[6..] == "value" + CloseTag("test")
  {
    FirstOpenAfterAbsent([], "test");
    FindElement([], "test", "value", []);
    assert [] + Element("test", "value") + [] == Element("test", "value");
  }

  /** In `<outer><test>val</test></outer>` the value start is index 13. */
  lemma FindNestedValue()
    ensures FindTagValueStart("<outer>" + Element("test", "val") + "</outer>", "test") == Some(13)
    ensures ("<outer>" + Element("test", "val") + "</outer>")[13..] == "val" + CloseTag("test") + "</outer>"
  {
    NoTestInOuter();
    FindElement("<outer>", "test", "val", "</outer>");
  }

  /** In `<test></test>` the value start is index 6, where the closing tag begins. */
  lemma FindEmptyValue()
    ensures FindTagValueStart(Element("test", ""), "test") == Some(6)
    ensures Element("test", "")[6..] == CloseTag("test")
  {
    FirstOpenAfterAbsent([], "test");
    FindElement([], "test", "", []);
    assert [] + Element("test", "") + [] == Element("test", "");
    assert [] + CloseTag("test") + [] == CloseTag("test");
  }

  /** `<anothertag>value</anothertag>` holds no `<test>`. */
  lemma NoTestInAnothertag()
    ensures FirstOpenAfter("<anothertag>value</anothertag>", "test")
  {
    var pre := "<anothertag>value</anothertag>";
    var open := OpenTag("test");
    forall j: nat
      ensures !OccursAt(pre, open, j)
    {
      if j + |open| <= |pre| {
        if j == 0 || j == 17 {
          Mismatch(pre, open, j, 1);
        } else {
          Mismatch(pre, open, j, 0);
        }
      }
    }
    FirstOpenAfterAbsent(pre, "test");
  }

  /** The `<test>` after a sibling element: the value start is index 36. */
  lemma FindAfterSibling()
    ensures FindTagValueStart("<anothertag>value</anothertag>" + Element("test", "value2"), "test") == Some(36)
    ensures ("<anothertag>value</anothertag>" + Element("test", "value2"))[36..] == "value2" + CloseTag("test")
  {
    var pre := "<anothertag>value</anothertag>";
    NoTestInAnothertag();
    FindElement(pre, "test", "value2", []);
    assert pre + Element("test", "value2") + [] == pre + Element("test", "value2");
    assert "value2" + CloseTag("test") + [] == "value2" + CloseTag("test");
  }

  /** A tag that does not occur has no value start. */
  lemma FindMissingTag()
    ensures FindTagValueStart("<test>value</test>", "nonexistent") == None
  {
    var text := "<test>value</test>";
    var open := OpenTag("nonexistent");
    forall j: nat
      ensures !OccursAt(text, open, j)
    {
      if j + |open| <= |text| {
        if j == 0 {
          Mismatch(text, open, j, 1);
        } else {
          Mismatch(text, open, j, 0);
        }
      }
    }
    MissingElement(text, "nonexistent");
  }

  // Reading (tests/test_xml_utils.c:63-136)

  /** A value that fits is returned whole. */
  lemma ReadSimpleValue()
    ensures ReadValue(Element("test", "value"), "test", 50) == Some("value")
  {
    FirstOpenAfterAbsent([], "test");
    ReadElement([], "test", "value", [], 50);
    assert [] + Element("test", "value") + [] == Element("test", "value");
  }

  /** An empty element reads as the empty string. */
  lemma ReadEmptyValue()
    ensures ReadValue(Element("test", ""), "test", 50) == Some("")
  {
    FirstOpenAfterAbsent([], "test");
    ReadElement([], "test", "", [], 50);
    assert [] + Element("test", "") + [] == Element("test", "");
  }

  /** `<outer>` holds no `<test>`. */
  lemma NoTestInOuter()
    ensures FirstOpenAfter("<outer>", "test")
  {
    var open := OpenTag("test");
    forall j: nat
      ensures !OccursAt("<outer>", open, j)
    {
      if j == 0 {
        Mismatch("<outer>", open, 0, 1);
      } else if j == 1 {
        Mismatch("<outer>", open, 1, 0);
      }
    }
    FirstOpenAfterAbsent("<outer>", "test");
  }

  /** An element nested in another is read like a top-level one. */
  lemma ReadNestedValue()
    ensures ReadValue("<outer>" + Element("test", "val") + "</outer>", "test", 50) == Some("val")
  {
    NoTestInOuter();
    ReadElement("<outer>", "test", "val", "</outer>", 50);
  }

  /** A 13-character value does not fit a 10-byte buffer: it is refused, not truncated. */
  lemma ReadTooLong()
    ensures ReadValue(Element("item", "verylongvalue"), "item", 10) == None
  {
    FirstOpenAfterAbsent([], "item");
    ReadElement([], "item", "verylongvalue", [], 10);
    assert [] + Element("item", "verylongvalue") + [] == Element("item", "verylongvalue");
  }

  /** Eight characters and the terminator fit a nine-byte buffer exactly. */
  lemma ReadExactFit()
    ensures ReadValue(Element("item", "exactfit"), "item", 9) == Some("exactfit")
  {
    FirstOpenAfterAbsent([], "item");
    ReadElement([], "item", "exactfit", [], 9);
    assert [] + Element("item", "exactfit") + [] == Element("item", "exactfit");
  }

  /** Nine characters leave no room for the terminator in nine bytes. */
  lemma ReadOneTooLong()
    ensures ReadValue(Element("item", "toolonggg"), "item", 9) == None
  {
    FirstOpenAfterAbsent([], "item");
    ReadElement([], "item", "toolonggg", [], 9);
    assert [] + Element("item", "toolonggg") + [] == Element("item", "toolonggg");
  }

  /** A one-byte buffer holds only the terminator. */
  lemma ReadIntoOneByte()
    ensures ReadValue(Element("test", "a"), "test", 1) == None
  {
    FirstOpenAfterAbsent([], "test");
    ReadElement([], "test", "a", [], 1);
    assert [] + Element("test", "a") + [] == Element("test", "a");
  }

  /** A tag that does not occur cannot be read. */
  lemma ReadMissingTag()
    ensures ReadValue("<test>value</test>", "nonexistent", 50) == None
  {
    var text := "<test>value</test>";
    var open := OpenTag("nonexistent");
    forall j: nat
      ensures !OccursAt(text, open, j)
    {
      if j + |open| <= |text| {
        if j == 0 {
          Mismatch(text, open, j, 1);
        } else {
          Mismatch(text, open, j, 0);
        }
      }
    }
    MissingElement(text, "nonexistent");
  }

  /** An element without its closing tag can be neither read nor written. */
  lemma UnclosedScenario()
    ensures ReadValue(OpenTag("test") + "value_no_close", "test", 50) == None
    ensures SetText(OpenTag("test") + "value_no_close", 50, "test", "x") == Failure(Invalid)
  {
    FirstOpenAfterAbsent([], "test");
    UnclosedElement([], "test", "value_no_close");
    assert [] + OpenTag("test") + "value_no_close" == OpenTag("test") + "value_no_close";
  }

  // Writing (tests/test_xml_utils.c:150-201)

  /** `<root>` holds no `<item>`. */
  lemma NoItemInRoot()
    ensures FirstOpenAfter("<root>", "item")
  {
    var open := OpenTag("item");
    forall j: nat
      ensures !OccursAt("<root>", open, j)
    {
      if j == 0 {
        Mismatch("<root>", open, 0, 1);
      }
    }
    FirstOpenAfterAbsent("<root>", "item");
  }

  /** An equal-length value replaces the old one in place. */
  lemma WriteSameLength()
    ensures SetText("<root>" + Element("item", "old") + "</root>", 256, "item", "new")
            == Success("<root>" + Element("item", "new") + "</root>")
  {
    NoItemInRoot();
    WriteElement("<root>", "item", "old", "</root>", 256, "new");
  }

  /** A shorter value moves the rest of the document left. */
  lemma WriteShorter()
    ensures SetText("<root>" + Element("item", "longer") + "</root>", 256, "item", "short")
            == Success("<root>" + Element("item", "short") + "</root>")
  {
    NoItemInRoot();
    WriteElement("<root>", "item", "longer", "</root>", 256, "short");
  }

  /** A longer value moves the rest of the document right. */
  lemma WriteLonger()
    ensures SetText("<root>" + Element("item", "short") + "</root>", 256, "item", "much_longer_value")
            == Success("<root>" + Element("item", "much_longer_value") + "</root>")
  {
    NoItemInRoot();
    WriteElement("<root>", "item", "short", "</root>", 256, "much_longer_value");
  }

  /** Writing the empty value leaves an empty element. */
  lemma WriteEmpty()
    ensures SetText("<root>" + Element("item", "data") + "</root>", 256, "item", "")
            == Success("<root>" + Element("item", "") + "</root>")
  {
    NoItemInRoot();
    WriteElement("<root>", "item", "data", "</root>", 256, "");
  }

  /** An empty element can be filled. */
  lemma WriteIntoEmpty()
    ensures SetText("<root>" + Element("item", "") + "</root>", 256, "item", "filled")
            == Success("<root>" + Element("item", "filled") + "</root>")
  {
    NoItemInRoot();
    WriteElement("<root>", "item", "", "</root>", 256, "filled");
  }

  /** A write to a tag that does not occur returns -1. */
  lemma WriteMissingTag()
    ensures SetText("<root><item>value</item></root>", 256, "nonexistent", "new") == Failure(Invalid)
  {
    var text := "<root><item>value</item></root>";
    var open := OpenTag("nonexistent");
    forall j: nat
      ensures !OccursAt(text, open, j)
    {
      if j + |open| <= |text| {
        if j == 0 || j == 6 || j == 17 {
          Mismatch(text, open, j, 1);
        } else {
          Mismatch(text, open, j, 0);
        }
      }
    }
    MissingElement(text, "nonexistent");
  }

  /** `<data>` holds no `<val1>`. */
  lemma NoVal1InData()
    ensures FirstOpenAfter("<data>", "val1")
  {
    var open := OpenTag("val1");
    forall j: nat
      ensures !OccursAt("<data>", open, j)
    {
      if j == 0 {
        Mismatch("<data>", open, 0, 1);
      }
    }
    FirstOpenAfterAbsent("<data>", "val1");
  }

  /** Writing the first of two sibling elements leaves the second as it was. */
  lemma WriteFirstSibling()
    ensures SetText("<data>" + Element("val1", "abc") + (Element("val2", "def") + "</data>"), 256, "val1", "xyz")
            == Success("<data>" + Element("val1", "xyz") + (Element("val2", "def") + "</data>"))
  {
    NoVal1InData();
    WriteElement("<data>", "val1", "abc", Element("val2", "def") + "</data>", 256, "xyz");
  }

  /** `<data><val1>xyz</val1>` holds no `<val2>`. */
  lemma NoVal2BeforeIt()
    ensures FirstOpenAfter("<data>" + Element("val1", "xyz"), "val2")
  {
    var pre := "<data>" + Element("val1", "xyz");
    var open := OpenTag("val2");
    forall j: nat
      ensures !OccursAt(pre, open, j)
    {
      if j + |open| <= |pre| {
        if j == 0 || j == 15 {
          Mismatch(pre, open, j, 1);
        } else if j == 6 {
          Mismatch(pre, open, j, 4);
        } else {
          Mismatch(pre, open, j, 0);
        }
      }
    }
    FirstOpenAfterAbsent(pre, "val2");
  }

  /** Writing the second sibling of `<data><val1>xyz</val1><val2>def</val2></data>`. */
  lemma WriteSecondSibling()
    ensures SetText("<data>" + Element("val1", "xyz") + Element("val2", "def") + "</data>", 256, "val2", "jkl")
            == Success("<data>" + Element("val1", "xyz") + Element("val2", "jkl") + "</data>")
  {
    NoVal2BeforeIt();
    WriteElement("<data>" + Element("val1", "xyz"), "val2", "def", "</data>", 256, "jkl");
  }

  /** The two writes in turn: the second applies to the document the first returns. */
  lemma WriteSiblingsInTurn()
    ensures var first := SetText("<data>" + Element("val1", "abc") + (Element("val2", "def") + "</data>"), 256, "val1", "xyz");
      && first.Success?
      && SetText(first.value, 256, "val2", "jkl")
         == Success("<data>" + Element("val1", "xyz") + Element("val2", "jkl") + "</data>")
  {
    WriteFirstSibling();
    WriteSecondSibling();
    var a, b, c := "<data>" + Element("val1", "xyz"), Element("val2", "def"), "</data>";
    assert a + (b + c) == a + b + c;
  }

  /** `<first>one</first>` holds no `<second>`. */
  lemma NoSecondInFirst()
    ensures FirstOpenAfter("<first>one</first>", "second")
  {
    var pre := "<first>one</first>";
    var open := OpenTag("second");
    forall j: nat
      ensures !OccursAt(pre, open, j)
    {
      if j + |open| <= |pre| {
        if j == 0 || j == 10 {
          Mismatch(pre, open, j, 1);
        } else {
          Mismatch(pre, open, j, 0);
        }
      }
    }
    FirstOpenAfterAbsent(pre, "second");
  }

  /** The second of two elements is rewritten; the first is left alone. */
  lemma WriteSecondElement()
    ensures SetText("<first>one</first>" + Element("second", "two"), 256, "second", "new_two")
            == Success("<first>one</first>" + Element("second", "new_two"))
  {
    NoSecondInFirst();
    WriteElement("<first>one</first>", "second", "two", [], 256, "new_two");
    assert "<first>one</first>" + Element("second", "two") + []
           == "<first>one</first>" + Element("second", "two");
    assert "<first>one</first>" + Element("second", "new_two") + []
           == "<first>one</first>" + Element("second", "new_two");
  }

  // The capacity of the document buffer (tests/test_xml_utils.c:203-239)

  /** In a 30-byte buffer a 25-character value overflows. */
  lemma WriteTooLongForBuffer()
    ensures SetText(Element("tag", "short"), 30, "tag", "this_is_a_very_long_value") == Failure(Overflow)
  {
    FirstOpenAfterAbsent([], "tag");
    WriteElement([], "tag", "short", [], 30, "this_is_a_very_long_value");
    assert [] + Element("tag", "short") + [] == Element("tag", "short");
  }

  /** A value that leaves a 27-character document fits a 30-byte buffer. */
  lemma WriteFitsTightBuffer()
    ensures SetText(Element("tag", "val"), 30, "tag", "value_fits_tight")
            == Success(Element("tag", "value_fits_tight"))
  {
    FirstOpenAfterAbsent([], "tag");
    WriteElement([], "tag", "val", [], 30, "value_fits_tight");
    assert [] + Element("tag", "val") + [] == Element("tag", "val");
    assert [] + Element("tag", "value_fits_tight") + [] == Element("tag", "value_fits_tight");
  }

  /** `<t>123</t>` and its terminator need 11 bytes: 10 overflow. */
  lemma WriteOverCapacity()
    ensures SetText(Element("t", "v"), 10, "t", "123") == Failure(Overflow)
  {
    FirstOpenAfterAbsent([], "t");
    WriteElement([], "t", "v", [], 10, "123");
    assert [] + Element("t", "v") + [] == Element("t", "v");
  }

  /** `<t>123</t>` and its terminator fill an 11-byte buffer exactly. */
  lemma WriteAtCapacity()
    ensures SetText(Element("t", "v"), 11, "t", "123") == Success(Element("t", "123"))
  {
    FirstOpenAfterAbsent([], "t");
    WriteElement([], "t", "v", [], 11, "123");
    assert [] + Element("t", "v") + [] == Element("t", "v");
    assert [] + Element("t", "123") + [] == Element("t", "123");
  }

  /** `<t>1234</t>` and its terminator need 12 bytes: 10 overflow. */
  lemma WriteFarOverCapacity()
    ensures SetText(Element("t", "v"), 10, "t", "1234") == Failure(Overflow)
  {
    FirstOpenAfterAbsent([], "t");
    WriteElement([], "t", "v", [], 10, "1234");
    assert [] + Element("t", "v") + [] == Element("t", "v");
  }

  // Tags the literal search does not match

  /** `<tagOther>v</tagOther>` has no value for element `tag`. */
  lemma LongerNameScenario()
    ensures ReadValue(Element("tagOther", "v"), "tag", 50) == None
  {
    assert "tag" + "Other" == "tagOther";
    LongerNameNotFound("tag", "Other", "v");
  }

  /**
   * `<product_area type="unsignedInt">2</product_area>`, an element whose
   * opening tag carries an attribute as in the console's sys_prod file, is
   * not found, so a write to it reports -1.
   */
  lemma AttributedScenario()
    ensures SetText(['<'] + "product_area" + [' '] + "type=\"unsignedInt\"" + ['>'] + "2" + CloseTag("product_area"),
                    256, "product_area", "4")
            == Failure(Invalid)
  {
    AttributedTagNotFound("product_area", "type=\"unsignedInt\"", "2");
  }
}
