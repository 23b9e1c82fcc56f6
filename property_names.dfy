/**
 * The property name postAction reports for a column that may not be null:
 * the column is cut at its first "_id", exploded on "_" and camel-cased
 * (`parent_company_id` becomes `parentCompany`).
 */
module PropertyNames {
  import opened Strings

  /** The column up to its first "_id" (all of it when there is none), as `substr($column, 0, strpos(...))`. */
  function CutAtId(column: string): string
  {
    match Find(column, "_id")
    case Some(k) => column[..k]
    case None => column
  }

  /** The cut column is a prefix of the column and no longer holds "_id". */
  lemma CutAtIdSpec(column: string)
    ensures CutAtId(column) <= column
    ensures !Contains(CutAtId(column), "_id")
    ensures Contains(column, "_id") ==> OccursAt(column, "_id", |CutAtId(column)|)
    ensures !Contains(column, "_id") ==> CutAtId(column) == column
  {
    var c := CutAtId(column);
    forall j ensures !OccursAt(c, "_id", j) {
      if 0 <= j && j + 3 <= |c| {
        assert c[j..j + 3] == column[j..j + 3];
        assert !OccursAt(column, "_id", j);
      }
    }
  }

  /** Segment `k` of the exploded column as it enters the property name: the first as is, the others ucfirst'ed. */
  function Segment(parts: seq<string>, k: nat): string
    requires k < |parts|
  {
    if k == 0 then parts[0] else UcFirst(parts[k])
  }

  /** The first `n` segments concatenated, as the loop has built them after `n` rounds. */
  function Camel(parts: seq<string>, n: nat): string
    requires n <= |parts|
  {
    if n == 0 then "" else Camel(parts, n - 1) + Segment(parts, n - 1)
  }

  /** The property name derived from a column: cut at "_id", exploded on "_", camel-cased. */
  function Prettify(column: string): string
  {
    var parts := Split(CutAtId(column), '_');
    Camel(parts, |parts|)
  }

  /**
   * The column-name transform of postAction, as its loop runs: the cut
   * column is exploded on "_" and the segments are appended in order, all
   * but the first ucfirst'ed.
   */
  method PropertyName(column: string) returns (property: string)
    ensures property == Prettify(column)
  {
    var idPosition := Find(column, "_id");
    var cut := if idPosition.Some? then column[..idPosition.value] else column;
    var parts := Split(cut, '_');
    property := "";
    var k := 0;
    while k < |parts|
      invariant 0 <= k <= |parts|
      invariant property == Camel(parts, k)
    {
      var v := parts[k];
      if k != 0 {
        v := UcFirst(v);
      }
      property := property + v;
      k := k + 1;
    }
  }

  /** Characters without "_" stay without it after ucfirst. */
  lemma UcFirstNoUnderscore(s: string)
    requires '_' !in s
    ensures '_' !in UcFirst(s)
  {
    if s != [] {
      assert UcFirst(s) == [UpperChar(s[0])] + s[1..];
      assert s == [s[0]] + s[1..];
    }
  }

  lemma SegmentNoUnderscore(parts: seq<string>, k: nat)
    requires k < |parts| && '_' !in parts[k]
    ensures '_' !in Segment(parts, k)
  {
    if k > 0 {
      UcFirstNoUnderscore(parts[k]);
    }
  }

  /** No character of the first `n` segments, concatenated, is "_". */
  lemma {:induction false} CamelNoUnderscore(parts: seq<string>, n: nat)
    requires n <= |parts|
    requires forall i :: 0 <= i < |parts| ==> '_' !in parts[i]
    ensures forall j :: 0 <= j < |Camel(parts, n)| ==> Camel(parts, n)[j] != '_'
  {
    if n > 0 {
      CamelNoUnderscore(parts, n - 1);
      SegmentNoUnderscore(parts, n - 1);
      var prev := Camel(parts, n - 1);
      var seg := Segment(parts, n - 1);
      assert Camel(parts, n) == prev + seg;
      forall j | 0 <= j < |prev + seg|
        ensures (prev + seg)[j] != '_'
      {
        if j >= |prev| {
          assert (prev + seg)[j] == seg[j - |prev|];
        }
      }
    }
  }

  /** A property name never holds an underscore. */
  lemma PrettifyNoUnderscore(column: string)
    ensures '_' !in Prettify(column)
  {
    var parts := Split(CutAtId(column), '_');
    CamelNoUnderscore(parts, |parts|);
  }

  /** The characters of `s` other than "_", in order. */
  function DropUnderscores(s: string): string
    decreases |s|
  {
    if s == [] then []
    else DropUnderscores(s[..|s| - 1]) + (if s[|s| - 1] == '_' then [] else [s[|s| - 1]])
  }

  lemma {:induction false} DropUnderscoresAppend(a: string, b: string)
    ensures DropUnderscores(a + b) == DropUnderscores(a) + DropUnderscores(b)
    decreases |b|
  {
    if b == [] {
      assert a + b == a;
    } else {
      var b' := b[..|b| - 1];
      assert (a + b)[..|a + b| - 1] == a + b';
      assert (a + b)[|a + b| - 1] == b[|b| - 1];
      DropUnderscoresAppend(a, b');
    }
  }

  lemma {:induction false} DropUnderscoresClean(s: string)
    requires '_' !in s
    ensures DropUnderscores(s) == s
    decreases |s|
  {
    if s != [] {
      DropUnderscoresClean(s[..|s| - 1]);
      assert s == s[..|s| - 1] + [s[|s| - 1]];
    }
  }

  /** The first `n` parts concatenated without any change. */
  function Concat(parts: seq<string>, n: nat): string
    requires n <= |parts|
  {
    if n == 0 then "" else Concat(parts, n - 1) + parts[n - 1]
  }

  lemma {:induction false} ConcatCons(parts: seq<string>, n: nat)
    requires 1 <= n <= |parts|
    ensures Concat(parts, n) == parts[0] + Concat(parts[1..], n - 1)
  {
    if n > 1 {
      ConcatCons(parts, n - 1);
    }
  }

  /** Dropping the separators of a join of "_"-free parts leaves the parts concatenated. */
  lemma {:induction false} DropUnderscoresJoin(parts: seq<string>)
    requires |parts| >= 1
    requires forall i :: 0 <= i < |parts| ==> '_' !in parts[i]
    ensures DropUnderscores(Join(parts, '_')) == Concat(parts, |parts|)
    decreases |parts|
  {
    ConcatCons(parts, |parts|);
    DropUnderscoresClean(parts[0]);
    if |parts| == 1 {
      assert Concat(parts[1..], 0) == "";
    } else {
      var tail := parts[1..];
      assert forall i :: 0 <= i < |tail| ==> '_' !in tail[i] by {
        assert forall i :: 0 <= i < |tail| ==> tail[i] == parts[i + 1];
      }
      var head := parts[0];
      var rest := Join(tail, '_');
      assert Join(parts, '_') == (head + ['_']) + rest;
      DropUnderscoresJoin(tail);
      DropUnderscoresAppend(head, ['_']);
      assert DropUnderscores(['_']) == [] by {
        assert ['_'][..0] == [];
      }
      assert DropUnderscores(head + ['_']) == head by {
        assert DropUnderscores(head) + [] == head;
      }
      DropUnderscoresAppend(head + ['_'], rest);
      assert DropUnderscores(rest) == Concat(tail, |tail|);
    }
  }

  /** `x` and `y` have the same length and agree character by character up to case. */
  predicate SameUpToCase(x: string, y: string)
  {
    |x| == |y| && forall j :: 0 <= j < |x| ==> LowerChar(x[j]) == LowerChar(y[j])
  }

  lemma SameUpToCaseAppend(a: string, b: string, c: string, d: string)
    requires SameUpToCase(a, b) && SameUpToCase(c, d)
    ensures SameUpToCase(a + c, b + d)
  {
    forall j | 0 <= j < |a + c|
      ensures LowerChar((a + c)[j]) == LowerChar((b + d)[j])
    {
      if j < |a| {
        assert (a + c)[j] == a[j] && (b + d)[j] == b[j];
      } else {
        assert (a + c)[j] == c[j - |a|] && (b + d)[j] == d[j - |a|];
      }
    }
  }

  /** A segment differs from its part only in letter case. */
  lemma SegmentLowerChars(parts: seq<string>, k: nat)
    requires k < |parts|
    ensures SameUpToCase(Segment(parts, k), parts[k])
  {
    if k > 0 {
      var s := parts[k];
      forall j | 0 <= j < |s|
        ensures LowerChar(UcFirst(s)[j]) == LowerChar(s[j])
      {
        if j == 0 {
          LowerOfUpper(s[0]);
        } else {
          assert UcFirst(s)[j] == UcFirst(s)[1..][j - 1] == s[1..][j - 1];
        }
      }
    }
  }

  /** The camel-cased segments and the plain parts agree character by character up to case. */
  lemma {:induction false} CamelLowerChars(parts: seq<string>, n: nat)
    requires n <= |parts|
    ensures SameUpToCase(Camel(parts, n), Concat(parts, n))
  {
    if n > 0 {
      CamelLowerChars(parts, n - 1);
      SegmentLowerChars(parts, n - 1);
      SameUpToCaseAppend(Camel(parts, n - 1), Concat(parts, n - 1), Segment(parts, n - 1), parts[n - 1]);
    }
  }

  /** Lower-casing the camel-cased segments gives the lower-cased plain parts. */
  lemma CamelLower(parts: seq<string>, n: nat)
    requires n <= |parts|
    ensures ToLower(Camel(parts, n)) == ToLower(Concat(parts, n))
  {
    CamelLowerChars(parts, n);
  }

  /**
   * The property name is the cut column with its underscores removed and
   * only letter case changed: lower-casing both gives the same string.
   */
  lemma PrettifyIsCutWithoutUnderscores(column: string)
    ensures ToLower(Prettify(column)) == ToLower(DropUnderscores(CutAtId(column)))
  {
    var cut := CutAtId(column);
    var parts := Split(cut, '_');
    JoinSplit(cut, '_');
    DropUnderscoresJoin(parts);
    CamelLower(parts, |parts|);
  }

  /** The first segment is kept exactly: the property name starts with the column's text up to its first "_". */
  lemma PrettifyKeepsFirstSegment(column: string)
    ensures Split(CutAtId(column), '_')[0] <= Prettify(column)
  {
    var parts := Split(CutAtId(column), '_');
    CamelStartsWithFirst(parts, |parts|);
  }

  lemma PrefixOfAppend(a: string, b: string, c: string)
    requires a <= b
    ensures a <= b + c
  {
    assert forall j :: 0 <= j < |a| ==> (b + c)[j] == b[j];
  }

  lemma {:induction false} CamelStartsWithFirst(parts: seq<string>, n: nat)
    requires 1 <= n <= |parts|
    ensures parts[0] <= Camel(parts, n)
  {
    if n > 1 {
      CamelStartsWithFirst(parts, n - 1);
      var prev := Camel(parts, n - 1);
      assert Camel(parts, n) == prev + Segment(parts, n - 1);
      PrefixOfAppend(parts[0], prev, Segment(parts, n - 1));
    } else {
      assert Camel(parts, 1) == "" + parts[0];
      assert "" + parts[0] == parts[0];
    }
  }

  /** A column ending in "_id" with no "_id" before it is cut back to what precedes that "_id". */
  lemma CutAtIdOf(head: string)
    requires !Contains(head, "_id")
    ensures CutAtId(head + "_id") == head
  {
    var s := head + "_id";
    assert OccursAt(s, "_id", |head|);
    forall j | 0 <= j < |head|
      ensures !OccursAt(s, "_id", j)
    {
      if j + 3 <= |head| {
        assert !OccursAt(head, "_id", j);
        assert s[j..j + 3] == head[j..j + 3];
      } else {
        assert s[j..j + 3][|head| - j] == s[|head|] == '_';
        assert "_id"[1] == 'i' && "_id"[2] == 'd';
      }
    }
  }

  /** A text without the letter 'i' holds no "_id". */
  lemma NoIdWithoutI(head: string)
    requires 'i' !in head
    ensures !Contains(head, "_id")
  {
    forall j ensures !OccursAt(head, "_id", j) {
      if 0 <= j && j + 3 <= |head| {
        assert head[j..j + 3][1] == head[j + 1] != 'i';
        assert "_id"[1] == 'i';
      }
    }
  }

  lemma CutParentCompanyId()
    ensures CutAtId("parent_company_id") == "parent_company"
  {
    var head := "parent" + "_" + "company";
    assert head + "_id" == "parent_company_id";
    NoIdWithoutI(head);
    CutAtIdOf(head);
  }

  lemma CutCompanyId()
    ensures CutAtId("company_id") == "company"
  {
    assert "company" + "_id" == "company_id";
    NoIdWithoutI("company");
    CutAtIdOf("company");
  }

  lemma SplitParentCompany()
    ensures Split("parent_company", '_') == ["parent", "company"]
  {
    var parts := ["parent", "company"];
    assert parts[1..] == ["company"];
    assert Join(parts, '_') == "parent_company";
    SplitJoin(parts, '_');
  }

  lemma SplitCompany()
    ensures Split("company", '_') == ["company"]
  {
    assert Join(["company"], '_') == "company";
    SplitJoin(["company"], '_');
  }

  lemma CamelParentCompany()
    ensures Camel(["parent", "company"], 2) == "parentCompany"
  {
    assert UcFirst("company") == "Company";
    assert Camel(["parent", "company"], 1) == "parent";
  }

  /** Two example columns: `parent_company_id` and `company_id`. */
  lemma PrettifyExamples()
    ensures Prettify("parent_company_id") == "parentCompany"
    ensures Prettify("company_id") == "company"
  {
    CutParentCompanyId();
    SplitParentCompany();
    CamelParentCompany();
    CutCompanyId();
    SplitCompany();
    assert Camel(["company"], 1) == "company";
  }
}
