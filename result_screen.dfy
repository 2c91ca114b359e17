/**
 * The text logic of the result screen: `extractText`, which turns an OCR
 * analysis result into reading-order text, and the two checks that decide
 * whether the form-fields and tables sections are shown.
 */
module ResultScreen {
  import opened Wrappers
  import opened Strings

  /**
   * The `BlockType` of a block. The screen only ever compares it with "LINE",
   * "KEY_VALUE_SET" and "TABLE"; every other type (PAGE, WORD, CELL, ...) is Other.
   */
  datatype BlockType = Line | KeyValueSet | Table | Other

  /** What the screen shows when there is no result or it has no block list. */
  const NoTextDetected := "No text detected in the document."

  /** Two lines whose tops differ by less than this fraction of the page height share a row. */
  const RowTolerance: real := 0.02

  /**
   * One block of an analysis result. `text` is the `Text` field, `top` and
   * `left` the bounding-box coordinates; each may be absent.
   */
  datatype Block = Block(blockType: BlockType, text: Option<string>, top: Option<real>, left: Option<real>)

  /** An analysis response; its `Blocks` field may be absent. */
  datatype AnalysisResult = AnalysisResult(blocks: Option<seq<Block>>)

  /** `a.Geometry?.BoundingBox?.Top || 0` */
  function TopOf(b: Block): real {
    if b.top.Some? then b.top.value else 0.0
  }

  /** `a.Geometry?.BoundingBox?.Left || 0` */
  function LeftOf(b: Block): real {
    if b.left.Some? then b.left.value else 0.0
  }

  /** `line.Text`; `join` renders an absent text as the empty string. */
  function TextOf(b: Block): string {
    if b.text.Some? then b.text.value else ""
  }

  function Abs(x: real): real {
    if x < 0.0 then -x else x
  }

  /** The two blocks lie on the same visual row. */
  predicate SameRow(a: Block, b: Block) {
    Abs(TopOf(a) - TopOf(b)) < RowTolerance
  }

  /**
   * The sort comparator: negative when `a` reads before `b`. Blocks on the
   * same row are ordered left to right, others top to bottom.
   */
  function Compare(a: Block, b: Block): real {
    if SameRow(a, b) then LeftOf(a) - LeftOf(b) else TopOf(a) - TopOf(b)
  }

  /** `a` reads before `b` exactly when it is left of `b` on one row, or above it on different rows. */
  lemma CompareSign(a: Block, b: Block)
    ensures Compare(a, b) < 0.0 <==> (if SameRow(a, b) then LeftOf(a) < LeftOf(b) else TopOf(a) < TopOf(b))
    ensures Compare(a, b) == 0.0 <==> (if SameRow(a, b) then LeftOf(a) == LeftOf(b) else TopOf(a) == TopOf(b))
  {
  }

  /** Swapping the arguments negates the comparison. */
  lemma CompareAntisymmetric(a: Block, b: Block)
    ensures Compare(a, b) == -Compare(b, a)
    ensures SameRow(a, b) == SameRow(b, a)
  {
  }

  /** A missing coordinate compares exactly like a coordinate of 0. */
  lemma MissingCoordinateIsZero(a: Block, b: Block)
    ensures Compare(a.(top := None), b) == Compare(a.(top := Some(0.0)), b)
    ensures Compare(a.(left := None), b) == Compare(a.(left := Some(0.0)), b)
    ensures Compare(b, a.(top := None)) == Compare(b, a.(top := Some(0.0)))
    ensures Compare(b, a.(left := None)) == Compare(b, a.(left := Some(0.0)))
  {
  }

  /**
   * The comparator is not transitive: tops 0, 0.015 and 0.03 make each
   * neighbouring pair one row but not the outer pair, and with lefts falling
   * from the first to the last, `a < c`, `c < b` and `b < a` all hold.
   */
  lemma CompareNotTransitive(a: Block, b: Block, c: Block)
    requires TopOf(a) == 0.0 && TopOf(b) == 0.015 && TopOf(c) == 0.03
    requires LeftOf(a) == 0.2 && LeftOf(b) == 0.1 && LeftOf(c) == 0.0
    ensures Compare(a, c) < 0.0 && Compare(c, b) < 0.0 && Compare(b, a) < 0.0
  {
    assert !SameRow(a, c) && SameRow(b, c) && SameRow(a, b);
  }

  // ---- filter ----

  /** `Blocks.filter(block => block.BlockType === "LINE")` */
  function Lines(bs: seq<Block>): (r: seq<Block>)
    ensures forall i :: 0 <= i < |r| ==> r[i].blockType == Line
    decreases |bs|
  {
    if |bs| == 0 then []
    else if bs[0].blockType == Line then [bs[0]] + Lines(bs[1..]) else Lines(bs[1..])
  }

  /** Each `LINE` block is kept as often as it occurs in the input, every other block never. */
  lemma {:induction false} LinesMultiset(bs: seq<Block>)
    ensures forall b :: multiset(Lines(bs))[b] == if b.blockType == Line then multiset(bs)[b] else 0
    decreases |bs|
  {
    if |bs| > 0 {
      assert bs == [bs[0]] + bs[1..];
      LinesMultiset(bs[1..]);
    }
  }

  /** The filter of one block keeps it exactly when it is a `LINE` block. */
  lemma LinesSingle(b: Block)
    ensures Lines([b]) == if b.blockType == Line then [b] else []
  {
    assert [b][1..] == [];
  }

  /** The filter keeps input order: filtering a concatenation concatenates the filtered parts. */
  lemma {:induction false} LinesAppend(a: seq<Block>, b: seq<Block>)
    ensures Lines(a + b) == Lines(a) + Lines(b)
    decreases |a|
  {
    if |a| == 0 {
      assert a + b == b;
    } else {
      var tail := a[1..];
      var h := if a[0].blockType == Line then [a[0]] else [];
      assert (a + b)[0] == a[0];
      assert (a + b)[1..] == tail + b;
      LinesUnfold(a + b);
      LinesUnfold(a);
      LinesAppend(tail, b);
      calc {
        Lines(a + b);
        h + Lines(tail + b);
        h + (Lines(tail) + Lines(b));
        (h + Lines(tail)) + Lines(b);
        Lines(a) + Lines(b);
      }
    }
  }

  /** One step of the filter. */
  lemma LinesUnfold(bs: seq<Block>)
    requires |bs| > 0
    ensures Lines(bs) == (if bs[0].blockType == Line then [bs[0]] else []) + Lines(bs[1..])
  {
  }

  // ---- insertion sort ----

  /** Every neighbouring pair is in reading order. */
  predicate LocallyOrdered(s: seq<Block>) {
    forall i :: 0 <= i < |s| - 1 ==> Compare(s[i], s[i + 1]) <= 0.0
  }

  /** Insert `x` before the first element it does not follow. */
  function Insert(x: Block, s: seq<Block>): (r: seq<Block>)
    ensures multiset(r) == multiset(s) + multiset{x}
    ensures |r| == |s| + 1 && (r[0] == x || (|s| > 0 && r[0] == s[0]))
    decreases |s|
  {
    if |s| == 0 then [x]
    else if Compare(x, s[0]) <= 0.0 then [x] + s
    else
      assert s == [s[0]] + s[1..];
      [s[0]] + Insert(x, s[1..])
  }

  /**
   * Insertion keeps every neighbouring pair in reading order. This needs only
   * antisymmetry of the comparator, not transitivity.
   */
  lemma {:induction false} InsertKeepsOrder(x: Block, s: seq<Block>)
    requires LocallyOrdered(s)
    ensures LocallyOrdered(Insert(x, s))
    decreases |s|
  {
    if |s| > 0 && Compare(x, s[0]) > 0.0 {
      var tail := s[1..];
      assert LocallyOrdered(tail) by {
        forall i | 0 <= i < |tail| - 1 ensures Compare(tail[i], tail[i + 1]) <= 0.0 {
          assert tail[i] == s[i + 1] && tail[i + 1] == s[i + 2];
        }
      }
      InsertKeepsOrder(x, tail);
      CompareAntisymmetric(x, s[0]);
      var t := Insert(x, tail);
      var r := Insert(x, s);
      assert r == [s[0]] + t;
      forall i | 0 <= i < |r| - 1 ensures Compare(r[i], r[i + 1]) <= 0.0 {
        if i == 0 {
          assert r[1] == t[0];
          if t[0] != x {
            assert t[0] == tail[0] == s[1];
          }
        } else {
          assert r[i] == t[i - 1] && r[i + 1] == t[i];
        }
      }
    }
  }

  /** The concrete sort chosen for the comparator: insertion sort. */
  function SortLines(s: seq<Block>): (r: seq<Block>)
    ensures multiset(r) == multiset(s)
    ensures LocallyOrdered(r)
    decreases |s|
  {
    if |s| == 0 then []
    else
      assert s == [s[0]] + s[1..];
      InsertKeepsOrder(s[0], SortLines(s[1..]));
      Insert(s[0], SortLines(s[1..]))
  }

  /** How many leading blocks of `s` the block `x` is inserted after. */
  function InsertPos(x: Block, s: seq<Block>): (p: nat)
    ensures p <= |s|
    ensures forall k :: 0 <= k < p ==> Compare(x, s[k]) > 0.0
    decreases |s|
  {
    if |s| == 0 || Compare(x, s[0]) <= 0.0 then 0 else 1 + InsertPos(x, s[1..])
  }

  /** Where a block of the list ends up once `x` is inserted: the blocks before `InsertPos` stay, the rest move up one. */
  lemma {:induction false} InsertShifts(x: Block, o: seq<Block>, m: int)
    requires 0 <= m < |o|
    ensures Insert(x, o)[if m < InsertPos(x, o) then m else m + 1] == o[m]
    decreases |o|
  {
    if Compare(x, o[0]) <= 0.0 {
      assert InsertPos(x, o) == 0;
      assert Insert(x, o) == [x] + o;
    } else if m == 0 {
      assert InsertPos(x, o) > 0;
      assert Insert(x, o)[0] == o[0];
    } else {
      var tail := o[1..];
      var p := InsertPos(x, tail);
      InsertShifts(x, tail, m - 1);
      var n := if m - 1 < p then m - 1 else m;
      assert Insert(x, tail)[n] == o[m];
      assert Insert(x, o) == [o[0]] + Insert(x, tail);
      assert Insert(x, o)[n + 1] == o[m];
      assert InsertPos(x, o) == p + 1;
    }
  }

  /** The inserted block sits at `InsertPos`. */
  lemma {:induction false} InsertLands(x: Block, o: seq<Block>)
    ensures InsertPos(x, o) < |Insert(x, o)| && Insert(x, o)[InsertPos(x, o)] == x
    decreases |o|
  {
    if |o| > 0 && Compare(x, o[0]) > 0.0 {
      var tail := o[1..];
      InsertLands(x, tail);
      assert Insert(x, o) == [o[0]] + Insert(x, tail);
    }
  }

  /** A block inserted before a block it does not follow stays in front of it. */
  lemma InsertStaysBefore(x: Block, o: seq<Block>, y: Block)
    requires y in o && Compare(x, y) <= 0.0
    ensures exists l :: InsertPos(x, o) < l < |Insert(x, o)| && Insert(x, o)[l] == y
  {
    var l :| 0 <= l < |o| && o[l] == y;
    assert !(l < InsertPos(x, o));
    InsertShifts(x, o, l);
    assert Insert(x, o)[l + 1] == y;
  }

  /**
   * The sort is stable, and more: a block that does not follow a later block
   * of the input, in particular one that ties with it, still comes first.
   */
  lemma {:induction false} SortKeepsOrderedPairs(s: seq<Block>, i: int, j: int)
    requires 0 <= i < j < |s|
    requires Compare(s[i], s[j]) <= 0.0
    ensures exists k, l :: 0 <= k < l < |SortLines(s)| && SortLines(s)[k] == s[i] && SortLines(s)[l] == s[j]
    decreases |s|
  {
    var t := s[1..];
    var o := SortLines(t);
    var r := SortLines(s);
    assert r == Insert(s[0], o);
    assert s[j] == t[j - 1];
    if i == 0 {
      assert s[j] in multiset(t);
      InsertStaysBefore(s[0], o, s[j]);
      InsertLands(s[0], o);
    } else {
      assert s[i] == t[i - 1];
      SortKeepsOrderedPairs(t, i - 1, j - 1);
      InsertKeepsPair(s[0], o, s[i], s[j]);
    }
  }

  /** Inserting a block keeps the relative order of two blocks already in the list. */
  lemma InsertKeepsPair(x: Block, o: seq<Block>, a: Block, b: Block)
    requires exists k, l :: 0 <= k < l < |o| && o[k] == a && o[l] == b
    ensures exists k, l :: 0 <= k < l < |Insert(x, o)| && Insert(x, o)[k] == a && Insert(x, o)[l] == b
  {
    var k, l :| 0 <= k < l < |o| && o[k] == a && o[l] == b;
    InsertShifts(x, o, k);
    InsertShifts(x, o, l);
    var p := InsertPos(x, o);
    var k' := if k < p then k else k + 1;
    var l' := if l < p then l else l + 1;
    assert Insert(x, o)[k'] == a && Insert(x, o)[l'] == b;
  }

  /** Every two blocks of the list tie. */
  predicate AllTied(s: seq<Block>) {
    forall i, j :: 0 <= i < |s| && 0 <= j < |s| ==> Compare(s[i], s[j]) == 0.0
  }

  /** The blocks after the first of a tied list tie too. */
  lemma AllTiedTail(s: seq<Block>)
    requires |s| > 0 && AllTied(s)
    ensures AllTied(s[1..])
  {
    var t := s[1..];
    forall i, j | 0 <= i < |t| && 0 <= j < |t| ensures Compare(t[i], t[j]) == 0.0 {
      assert t[i] == s[i + 1] && t[j] == s[j + 1];
    }
  }

  /** A block that ties with the head of a list is inserted in front of it. */
  lemma InsertTied(x: Block, t: seq<Block>)
    requires |t| == 0 || Compare(x, t[0]) == 0.0
    ensures Insert(x, t) == [x] + t
  {
  }

  /** Blocks that all tie with each other keep their input order. */
  lemma {:induction false} AllTiedKeepOrder(s: seq<Block>)
    requires AllTied(s)
    ensures SortLines(s) == s
    decreases |s|
  {
    if |s| > 0 {
      var t := s[1..];
      AllTiedTail(s);
      AllTiedKeepOrder(t);
      assert SortLines(s) == Insert(s[0], SortLines(t));
      if |t| > 0 {
        assert Compare(s[0], s[1]) == 0.0;
        assert t[0] == s[1];
      }
      InsertTied(s[0], t);
      assert s == [s[0]] + t;
    }
  }

  // ---- extractText ----

  /** `lines.map(line => line.Text)` */
  function Texts(ls: seq<Block>): (r: seq<string>)
    ensures |r| == |ls|
    ensures forall i :: 0 <= i < |ls| ==> r[i] == TextOf(ls[i])
  {
    seq(|ls|, i requires 0 <= i < |ls| => TextOf(ls[i]))
  }

  /** The reading-order lines of a block list. */
  function OrderedLines(bs: seq<Block>): seq<Block> {
    SortLines(Lines(bs))
  }

  /** `extractText(results)` */
  function ExtractText(results: Option<AnalysisResult>): (r: string)
    ensures results.None? || results.value.blocks.None? ==> r == NoTextDetected
  {
    if results.None? || results.value.blocks.None? then NoTextDetected
    else Join(Texts(OrderedLines(results.value.blocks.value)), "\n")
  }

  /** The ordered lines are a permutation of exactly the `LINE` blocks of the input. */
  lemma OrderedLinesArePermutation(bs: seq<Block>)
    ensures forall b :: multiset(OrderedLines(bs))[b] == if b.blockType == Line then multiset(bs)[b] else 0
    ensures forall b :: b in OrderedLines(bs) ==> b.blockType == Line && b in bs
    ensures LocallyOrdered(OrderedLines(bs))
  {
    LinesMultiset(bs);
    var ls := Lines(bs);
    assert multiset(OrderedLines(bs)) == multiset(ls);
    forall b | b in OrderedLines(bs) ensures b.blockType == Line && b in bs {
      assert b in multiset(ls);
      assert b in ls;
      assert multiset(bs)[b] > 0;
    }
  }

  /**
   * When no two distinct `LINE` blocks share a row, the comparator orders by
   * top alone and the lines read strictly top to bottom through the whole output.
   */
  lemma RowsReadTopToBottom(bs: seq<Block>)
    requires forall x, y :: x in Lines(bs) && y in Lines(bs) && x != y ==> !SameRow(x, y)
    ensures forall i, j :: 0 <= i < j < |OrderedLines(bs)| ==> TopOf(OrderedLines(bs)[i]) <= TopOf(OrderedLines(bs)[j])
  {
    var os := OrderedLines(bs);
    var ls := Lines(bs);
    assert multiset(os) == multiset(ls);
    forall i | 0 <= i < |os| - 1 ensures TopOf(os[i]) <= TopOf(os[i + 1]) {
      assert os[i] in multiset(ls) && os[i + 1] in multiset(ls);
      assert Compare(os[i], os[i + 1]) <= 0.0;
      CompareSign(os[i], os[i + 1]);
    }
    TopsAscend(os);
  }

  /** Tops that do not fall between neighbours do not fall between any two blocks. */
  lemma {:induction false} TopsAscend(s: seq<Block>)
    requires forall i :: 0 <= i < |s| - 1 ==> TopOf(s[i]) <= TopOf(s[i + 1])
    ensures forall i, j :: 0 <= i < j < |s| ==> TopOf(s[i]) <= TopOf(s[j])
    decreases |s|
  {
    if |s| > 1 {
      var tail := s[1..];
      forall i | 0 <= i < |tail| - 1 ensures TopOf(tail[i]) <= TopOf(tail[i + 1]) {
        assert tail[i] == s[i + 1] && tail[i + 1] == s[i + 2];
      }
      TopsAscend(tail);
      forall i, j | 0 <= i < j < |s| ensures TopOf(s[i]) <= TopOf(s[j]) {
        if i > 0 {
          assert s[i] == tail[i - 1] && s[j] == tail[j - 1];
        } else if j > 1 {
          assert s[1] == tail[0] && s[j] == tail[j - 1];
        }
      }
    }
  }

  /** A block list without `LINE` blocks, the empty one among them, yields "", not the sentinel. */
  lemma NoLinesGivesEmptyText(bs: seq<Block>)
    requires forall i :: 0 <= i < |bs| ==> bs[i].blockType != Line
    ensures ExtractText(Some(AnalysisResult(Some(bs)))) == ""
  {
    LinesMultiset(bs);
  }

  /**
   * When no line text contains a newline, splitting the output at newlines
   * gives one segment per `LINE` block: the texts of the ordered lines.
   */
  lemma OneSegmentPerLine(bs: seq<Block>)
    requires exists i :: 0 <= i < |bs| && bs[i].blockType == Line
    requires forall i :: 0 <= i < |bs| && bs[i].blockType == Line ==> '\n' !in TextOf(bs[i])
    ensures var segments := Split(ExtractText(Some(AnalysisResult(Some(bs)))), '\n');
      segments == Texts(OrderedLines(bs)) && |segments| == |Lines(bs)|
  {
    LinesMultiset(bs);
    var ls := Lines(bs);
    var k :| 0 <= k < |bs| && bs[k].blockType == Line;
    assert multiset(ls)[bs[k]] > 0;
    var os := OrderedLines(bs);
    assert |os| == |multiset(os)| == |multiset(ls)| == |ls|;
    OrderedLinesArePermutation(bs);
    var ts := Texts(os);
    forall i | 0 <= i < |ts| ensures '\n' !in ts[i] {
      assert os[i] in os;
      var j :| 0 <= j < |bs| && bs[j] == os[i];
    }
    SplitJoin(ts, '\n');
  }

  /** `LINE` blocks without a bounding box all tie and are read in input order. */
  lemma NoBoxesKeepInputOrder(bs: seq<Block>)
    requires forall i :: 0 <= i < |bs| && bs[i].blockType == Line ==> bs[i].top.None? && bs[i].left.None?
    ensures OrderedLines(bs) == Lines(bs)
  {
    LinesMultiset(bs);
    var ls := Lines(bs);
    assert AllTied(ls) by {
    forall i, j | 0 <= i < |ls| && 0 <= j < |ls| ensures Compare(ls[i], ls[j]) == 0.0 {
      assert ls[i] in multiset(ls) && ls[j] in multiset(ls);
      assert ls[i] in multiset(bs) && ls[j] in multiset(bs);
      var a :| 0 <= a < |bs| && bs[a] == ls[i];
      var b :| 0 <= b < |bs| && bs[b] == ls[j];
      assert ls[i].blockType == Line && ls[j].blockType == Line;
    }
    }
    AllTiedKeepOrder(ls);
  }

  // ---- presence checks ----

  /** `blocks.some(block => block.BlockType === t)` */
  function AnyOfType(bs: seq<Block>, t: BlockType): (r: bool)
    ensures r <==> exists i :: 0 <= i < |bs| && bs[i].blockType == t
    decreases |bs|
  {
    if |bs| == 0 then false
    else bs[0].blockType == t || (assert forall i :: 0 < i < |bs| ==> bs[i] == bs[1..][i - 1]; AnyOfType(bs[1..], t))
  }

  /** The form-fields section is shown iff some block is a `KEY_VALUE_SET`. */
  function ShowsFormFields(results: Option<AnalysisResult>): (r: bool)
    ensures r <==> (results.Some? && results.value.blocks.Some? &&
      exists i :: 0 <= i < |results.value.blocks.value| && results.value.blocks.value[i].blockType == KeyValueSet)
  {
    results.Some? && results.value.blocks.Some? && AnyOfType(results.value.blocks.value, KeyValueSet)
  }

  /** The tables section is shown iff some block is a `TABLE`. */
  function ShowsTables(results: Option<AnalysisResult>): (r: bool)
    ensures r <==> (results.Some? && results.value.blocks.Some? &&
      exists i :: 0 <= i < |results.value.blocks.value| && results.value.blocks.value[i].blockType == Table)
  {
    results.Some? && results.value.blocks.Some? && AnyOfType(results.value.blocks.value, Table)
  }

  // ---- worked examples ----

  function TextLine(text: string, t: real, l: real): Block {
    Block(Line, Some(text), Some(t), Some(l))
  }

  /**
   * Two lines on one row come out left one first, in either input order
   * (with only two lines the comparator cannot form a cycle).
   */
  lemma SameRowPairReadsLeftToRight(a: Block, b: Block)
    requires a.blockType == Line && b.blockType == Line
    requires SameRow(a, b) && LeftOf(b) < LeftOf(a)
    ensures ExtractText(Some(AnalysisResult(Some([a, b])))) == TextOf(b) + "\n" + TextOf(a)
    ensures ExtractText(Some(AnalysisResult(Some([b, a])))) == TextOf(b) + "\n" + TextOf(a)
  {
    CompareSign(b, a);
    CompareAntisymmetric(a, b);
    LinesOfLines([a, b]);
    LinesOfLines([b, a]);
    SortTwo(a, b);
    SortTwo(b, a);
    InsertIntoOne(a, b);
    InsertIntoOne(b, a);
    assert OrderedLines([a, b]) == SortLines([a, b]) == [b, a];
    assert OrderedLines([b, a]) == SortLines([b, a]) == [b, a];
    ExtractTextOfOrdered([a, b], [b, a]);
    ExtractTextOfOrdered([b, a], [b, a]);
    assert Texts([b, a]) == [TextOf(b), TextOf(a)];
    assert Join([TextOf(b), TextOf(a)], "\n") == TextOf(b) + "\n" + Join([TextOf(a)], "\n");
  }

  /** The insertion sort of two blocks, unfolded. */
  lemma SortTwo(x: Block, y: Block)
    ensures SortLines([x, y]) == Insert(x, [y])
  {
    assert [x, y][1..] == [y];
    assert SortLines([y]) == [y];
  }


  /** A list of `LINE` blocks passes the filter unchanged. */
  lemma {:induction false} LinesOfLines(bs: seq<Block>)
    requires forall i :: 0 <= i < |bs| ==> bs[i].blockType == Line
    ensures Lines(bs) == bs
    decreases |bs|
  {
    if |bs| > 0 {
      LinesOfLines(bs[1..]);
      assert bs == [bs[0]] + bs[1..];
    }
  }

  /** The insertion sort of three blocks, unfolded. */
  lemma SortThree(x: Block, y: Block, z: Block)
    ensures SortLines([x, y, z]) == Insert(x, Insert(y, [z]))
  {
    assert [x, y, z][1..] == [y, z];
    assert [y, z][1..] == [z];
    assert SortLines([z]) == [z];
  }

  /** Inserting into a one-element list. */
  lemma InsertIntoOne(x: Block, y: Block)
    ensures Insert(x, [y]) == if Compare(x, y) <= 0.0 then [x, y] else [y, x]
  {
    if Compare(x, y) > 0.0 {
      assert Insert(x, [y]) == [y] + Insert(x, []);
    }
  }

  /** Inserting into a two-element list. */
  lemma InsertIntoTwo(x: Block, y: Block, z: Block)
    ensures Insert(x, [y, z]) == if Compare(x, y) <= 0.0 then [x, y, z] else [y] + Insert(x, [z])
  {
    assert [y, z][1..] == [z];
  }

  /**
   * The order the sort produces for a cycle `x < z`, `z < y`, `y < x` of the
   * comparator, each input order giving its own result.
   */
  lemma SortCycle(x: Block, y: Block, z: Block)
    requires Compare(x, z) < 0.0 && Compare(z, y) < 0.0 && Compare(y, x) < 0.0
    ensures SortLines([x, y, z]) == [x, z, y]
    ensures SortLines([z, y, x]) == [z, y, x]
  {
    CompareAntisymmetric(y, z);
    CompareAntisymmetric(z, x);
    SortThree(x, y, z);
    InsertIntoOne(y, z);
    InsertIntoTwo(x, z, y);
    SortThree(z, y, x);
    InsertIntoOne(y, x);
    InsertIntoTwo(z, y, x);
  }

  /**
   * Because the comparator is not transitive, the output depends on the order
   * of the input: the same three lines give different text in two orders.
   */
  lemma OutputDependsOnInputOrder(a: Block, b: Block, c: Block)
    requires a == TextLine("a", 0.0, 0.2) && b == TextLine("b", 0.015, 0.1) && c == TextLine("c", 0.03, 0.0)
    ensures ExtractText(Some(AnalysisResult(Some([a, b, c])))) != ExtractText(Some(AnalysisResult(Some([c, b, a]))))
  {
    CompareNotTransitive(a, b, c);
    CycleOrderDependence(a, b, c);
  }

  /** The output for a block list whose ordered lines are known. */
  lemma ExtractTextOfOrdered(bs: seq<Block>, ls: seq<Block>)
    requires OrderedLines(bs) == ls
    ensures ExtractText(Some(AnalysisResult(Some(bs)))) == Join(Texts(ls), "\n")
  {
  }

  /** The ordered lines of both input orders of a comparator cycle. */
  lemma CycleOrderedLines(a: Block, b: Block, c: Block)
    requires a.blockType == Line && b.blockType == Line && c.blockType == Line
    requires Compare(a, c) < 0.0 && Compare(c, b) < 0.0 && Compare(b, a) < 0.0
    ensures OrderedLines([a, b, c]) == [a, c, b]
    ensures OrderedLines([c, b, a]) == [c, b, a]
  {
    LinesOfLines([a, b, c]);
    LinesOfLines([c, b, a]);
    SortCycle(a, b, c);
    assert OrderedLines([a, b, c]) == SortLines([a, b, c]);
    assert OrderedLines([c, b, a]) == SortLines([c, b, a]);
  }

  /** Any cycle of the comparator makes the output depend on the input order. */
  lemma CycleOrderDependence(a: Block, b: Block, c: Block)
    requires a.blockType == Line && b.blockType == Line && c.blockType == Line
    requires Compare(a, c) < 0.0 && Compare(c, b) < 0.0 && Compare(b, a) < 0.0
    requires |TextOf(a)| > 0 && |TextOf(c)| > 0 && TextOf(a)[0] != TextOf(c)[0]
    ensures ExtractText(Some(AnalysisResult(Some([a, b, c])))) != ExtractText(Some(AnalysisResult(Some([c, b, a]))))
  {
    CycleOrderedLines(a, b, c);
    var t1, t2 := Texts([a, c, b]), Texts([c, b, a]);
    ExtractTextOfOrdered([a, b, c], [a, c, b]);
    ExtractTextOfOrdered([c, b, a], [c, b, a]);
    assert t1[0] == TextOf(a) && t2[0] == TextOf(c);
    JoinStartsWith(t1, "\n");
    JoinStartsWith(t2, "\n");
  }
}
