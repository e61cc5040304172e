/** The scenarios of tests/test_clean_text.py, on the models: the twelve-row table with a text,
    an integer and a float column, and the callback `replace_text_test`. */
module CleanTextTests {
  import opened Python
  import opened Frames
  import opened Batch
  import opened Columns
  import opened Uuid
  import opened MostCommon

  datatype TestRow = TestRow(text: string, intValue: int, floatValue: real)

  const Like: string := "i like"
  const Love: string := "i love"

  /** The identifier and value columns the tests use: `df["int"]` and `df["text"]`. */
  function IntCol(r: TestRow): int { r.intValue }
  function TextCol(r: TestRow): string { r.text }

  /** The test table: four different rows, three times over. */
  const TestFrame: seq<TestRow> := [
    TestRow("some text", 1, 1.2), TestRow("some other text", 1, 1.4),
    TestRow("i like bananas", 2, 6.5), TestRow("i like apples", 2, 7.5),
    TestRow("some text", 1, 1.2), TestRow("some other text", 1, 1.4),
    TestRow("i like bananas", 2, 6.5), TestRow("i like apples", 2, 7.5),
    TestRow("some text", 1, 1.2), TestRow("some other text", 1, 1.4),
    TestRow("i like bananas", 2, 6.5), TestRow("i like apples", 2, 7.5)
  ]

  /** `replace_text_test`: replaces "i like" by "i love" in the text of every row. */
  function ReplaceTextTest(chunk: seq<TestRow>): (out: seq<TestRow>)
    ensures |out| == |chunk|
    ensures forall i :: 0 <= i < |chunk| ==>
      out[i] == chunk[i].(text := Replace(chunk[i].text, Like, Love))
    ensures forall i :: 0 <= i < |chunk| ==>
      out[i].intValue == chunk[i].intValue && out[i].floatValue == chunk[i].floatValue
    ensures forall o :: o in out ==> !Contains(o.text, Like)
  {
    forall i | 0 <= i < |chunk| {
      NoLikeAfterReplace(chunk[i].text);
    }
    seq(|chunk|, i requires 0 <= i < |chunk| => chunk[i].(text := Replace(chunk[i].text, Like, Love)))
  }

  predicate StartsWith(s: string, w: string) {
    |w| <= |s| && s[..|w|] == w
  }

  /** If the result of the replacement starts with a proper, non-empty tail of "i like", the
      input started with it too: "i love" begins no such tail. */
  lemma {:induction false} ReplacePrefix(t: string, k: nat)
    requires 1 <= k <= 6
    ensures StartsWith(Replace(t, Like, Love), Like[k..]) ==> StartsWith(t, Like[k..])
    decreases 6 - k
  {
    if |t| >= 6 && t[..6] == Like && k < 6 {
      assert Replace(t, Like, Love) == Love + Replace(t[6..], Like, Love);
      LoveStartsNoTail(Replace(t[6..], Like, Love), k);
    } else if |t| >= 6 && k < 6 {
      ReplacePrefix(t[1..], k + 1);
      assert Replace(t, Like, Love) == [t[0]] + Replace(t[1..], Like, Love);
      StartsWithCons(t, Replace(t[1..], Like, Love), Like[k..]);
    }
  }

  lemma {:induction false} LoveStartsNoTail(t: string, k: nat)
    requires 1 <= k < 6
    ensures !StartsWith(Love + t, Like[k..])
  {
    var r, w := Love + t, Like[k..];
    assert r[0] == 'i' && r[1] == ' ';
    assert k != 3 ==> w[0] != 'i';
    assert k == 3 ==> w[1] != ' ';
  }

  /** `[s[0]] + t` starts with `w` exactly when `s` does, given that `t` starts with the tail of
      `w` only if `s[1..]` does. */
  lemma {:induction false} StartsWithCons(s: string, t: string, w: string)
    requires s != [] && w != []
    requires StartsWith(t, w[1..]) ==> StartsWith(s[1..], w[1..])
    ensures StartsWith([s[0]] + t, w) ==> StartsWith(s, w)
  {
    var r := [s[0]] + t;
    if StartsWith(r, w) {
      assert r[..|w|] == [s[0]] + t[..|w| - 1];
      assert s[..|w|] == [s[0]] + s[1..][..|w| - 1];
    }
  }

  /** After `replace_text_test`'s replacement no "i like" is left in a text. */
  lemma {:induction false} NoLikeAfterReplace(s: string)
    ensures !Contains(Replace(s, Like, Love), Like)
    decreases |s|
  {
    if |s| < 6 {
      assert Replace(s, Like, Love) == s;
    } else if s[..6] == Like {
      NoLikeAfterReplace(s[6..]);
      assert Replace(s, Like, Love) == Love + Replace(s[6..], Like, Love);
      NoLikeAfterLove(Replace(s[6..], Like, Love));
    } else {
      NoLikeAfterReplace(s[1..]);
      assert Replace(s, Like, Love) == [s[0]] + Replace(s[1..], Like, Love);
      ReplacePrefix(s[1..], 1);
      NoLikeAfterChar(s, Replace(s[1..], Like, Love));
    }
  }

  /** "i love" followed by a text without "i like" contains no "i like": no tail of "i love"
      begins "i like". */
  lemma {:induction false} NoLikeAfterLove(t: string)
    requires !Contains(t, Like)
    ensures !Contains(Love + t, Like)
  {
    var r := Love + t;
    forall i | 0 <= i <= |r|
      ensures !OccursAt(r, Like, i)
    {
      if i + 6 <= |r| {
        if i >= 6 {
          assert r[i..i + 6] == t[i - 6..i];
          assert !OccursAt(t, Like, i - 6);
        } else if i == 0 {
          assert r[i..i + 6][3] == 'o';
        } else {
          assert r[i..i + 6][0] == Love[i];
        }
      }
    }
  }

  /** A character followed by the replaced rest of `s` contains no "i like" when `s` does not
      start with it. */
  lemma {:induction false} NoLikeAfterChar(s: string, t: string)
    requires |s| >= 6 && s[..6] != Like && !Contains(t, Like)
    requires StartsWith(t, Like[1..]) ==> StartsWith(s[1..], Like[1..])
    ensures !Contains([s[0]] + t, Like)
  {
    var r := [s[0]] + t;
    assert Like[1..] == " like";
    assert s[..6] == [s[0]] + s[1..][..5];
    forall i | 0 <= i <= |r|
      ensures !OccursAt(r, Like, i)
    {
      if i + 6 <= |r| {
        if i >= 1 {
          assert r[i..i + 6] == t[i - 1..i + 5];
          assert !OccursAt(t, Like, i - 1);
        } else {
          assert r[..6] == [s[0]] + t[..5];
        }
      }
    }
  }

  /** `test_batch_pandas_operation`, for any table, any positive number of slices and the integer
      column as identifier: no text of the result contains "i like". */
  lemma {:induction false} BatchReplaceLeavesNoLike(df: seq<TestRow>, numSplits: int)
    requires numSplits >= 1
    ensures forall o :: o in BatchApply(df, numSplits, IntCol, ReplaceTextTest) ==> !Contains(o.text, Like)
  {
    BatchKeepsRowProperty(df, numSplits, IntCol, ReplaceTextTest, (o: TestRow) => !Contains(o.text, Like));
  }

  /** The same through `batch_pandas_operation` itself, on the test table with two slices. */
  method TestBatchPandasOperation() returns (res: Result<seq<TestRow>>)
    ensures res.Ok?
    ensures forall o :: o in res.value ==> !Contains(o.text, Like)
  {
    res := BatchPandasOperation(TestFrame, 2, IntCol, ReplaceTextTest);
    BatchReplaceLeavesNoLike(TestFrame, 2);
  }

  /** `test_make_uuid`. */
  lemma {:induction false} TestMakeUuid()
    ensures MakeUuid("609390d88cff44269c2e293bd6b89a0b") == "609390d8-8cff-4426-9c2e-293bd6b89a0b"
  {
    ExampleDigest();
    MakeUuidPieces("609390d8", "8cff", "4426", "9c2e", "293bd6b89a0b");
    ExampleUuid();
  }

  lemma {:induction false} ExampleDigest()
    ensures "609390d88cff44269c2e293bd6b89a0b" == "609390d8" + "8cff" + "4426" + "9c2e" + "293bd6b89a0b"
  {
  }

  lemma {:induction false} ExampleUuid()
    ensures "609390d8" + "-" + "8cff" + "-" + "4426" + "-" + "9c2e" + "-" + "293bd6b89a0b"
         == "609390d8-8cff-4426-9c2e-293bd6b89a0b"
  {
  }

  /** Deleting the hyphens of the test UUID gives back the digest. */
  lemma {:induction false} TestStripHyphens()
    ensures StripHyphens("609390d8-8cff-4426-9c2e-293bd6b89a0b") == "609390d88cff44269c2e293bd6b89a0b"
  {
    TestMakeUuid();
    StripHyphensOfMakeUuid("609390d88cff44269c2e293bd6b89a0b");
  }

  /** `test_most_common_only`: keeping the single most common text drops rows. */
  lemma {:induction false} TestMostCommonOnly()
    ensures |DfMostCommonOnly(TestFrame, TextCol, 1)| < |TestFrame|
  {
    DfMostCommonOnlySingle(TestFrame, TextCol, 0, 1);
  }

  /** The example of `test_remove_duplicate_columns`: of the columns "First Name", "Last Name"
      and "Last Name", the first two are kept. */
  lemma {:induction false} TestRemoveDuplicateColumns()
    ensures RemoveDuplicateColumns([Column("First Name", "Kristie"), Column("Last Name", "Smith"), Column("Last Name", "Smith")])
         == [Column("First Name", "Kristie"), Column("Last Name", "Smith")]
  {
    var cols := [Column("First Name", "Kristie"), Column("Last Name", "Smith"), Column("Last Name", "Smith")];
    assert cols[..2][..1] == [cols[0]];
    assert cols[..2] == [cols[0], cols[1]];
    assert cols[1].name != cols[0].name;
    assert Names(cols)[..2] == ["First Name", "Last Name"];
    assert Names(cols[..2])[..1] == ["First Name"];
  }

  /** The example of `test_clean_column_names`: "First Name" becomes "first_name". */
  lemma {:induction false} TestCleanColumnName()
    ensures CleanName("First Name") == "first_name"
  {
    var x := "First Name";
    StripTrimmed(x);
    UnderscoreFirstName();
    LowerFirstName();
  }

  lemma {:induction false} UnderscoreFirstName()
    ensures Replace("First Name", " ", "_") == "First_Name"
  {
    assert [' '] == " " && ['_'] == "_";
    ReplaceCharPieces("First", "Name", ' ', '_');
    assert "First" + [' '] + "Name" == "First Name";
    assert "First" + ['_'] + "Name" == "First_Name";
  }

  /** Replacing a character that occurs once, between two pieces without it. */
  lemma {:induction false} ReplaceCharPieces(a: string, b: string, c: char, d: char)
    requires c !in a && c !in b
    ensures Replace(a + [c] + b, [c], [d]) == a + [d] + b
  {
    var s := a + [c] + b;
    ReplaceChar(s, c, d);
    var r := Replace(s, [c], [d]);
    forall i | 0 <= i < |s|
      ensures r[i] == (a + [d] + b)[i]
    {
      if i < |a| {
        assert s[i] == a[i];
      } else if i > |a| {
        assert s[i] == b[i - |a| - 1];
      }
    }
  }

  lemma {:induction false} LowerFirstName()
    ensures Lower("First_Name") == "first_name"
  {
    var y := Lower("First_Name");
    assert forall i :: 0 <= i < 10 ==> y[i] == "first_name"[i];
  }
}
