/** The order of rows (Data/src/Row.cpp, operator <). A value is given by what its conversions to an integer, a floating point number
    and a string yield. */
module RowOrder {
  import opened Wrappers

  datatype Float = NaN | Number(value: real)

  datatype Value = Value(integer: int, float: Float, text: seq<int>)

  datatype Comparison = AsEmpty | AsInteger | AsFloat | AsString

  /** A sort field: the column and how it is compared. */
  datatype SortField = SortField(column: nat, comparison: Comparison)

  type SortMap = seq<SortField>

  type Row = seq<Value>

  predicate FloatLess(a: Float, b: Float) {
    a.Number? && b.Number? && a.value < b.value
  }

  predicate FloatDiffers(a: Float, b: Float) {
    a == NaN || b == NaN || a != b
  }

  predicate TextLess(a: seq<int>, b: seq<int>) {
    b != [] && (a == [] || a[0] < b[0] || (a[0] == b[0] && TextLess(a[1..], b[1..])))
  }

  predicate FieldLess(c: Comparison, a: Value, b: Value) {
    match c
    case AsEmpty => false
    case AsInteger => a.integer < b.integer
    case AsFloat => FloatLess(a.float, b.float)
    case AsString => TextLess(a.text, b.text)
  }

  /** Where the comparison ends with "not less". */
  predicate FieldDiffers(c: Comparison, a: Value, b: Value) {
    match c
    case AsEmpty => true
    case AsInteger => a.integer != b.integer
    case AsFloat => FloatDiffers(a.float, b.float)
    case AsString => a.text != b.text
  }

  predicate HasColumns(row: Row, sortMap: SortMap) {
    forall i :: 0 <= i < |sortMap| ==> sortMap[i].column < |row|
  }

  predicate Less(sortMap: SortMap, a: Row, b: Row)
    requires HasColumns(a, sortMap) && HasColumns(b, sortMap)
    decreases |sortMap|
  {
    sortMap != [] &&
    var f := sortMap[0];
    var x, y := a[f.column], b[f.column];
    FieldLess(f.comparison, x, y) || (!FieldDiffers(f.comparison, x, y) && Less(sortMap[1..], a, b))
  }

  /** operator <; None where the sort criteria differ and it throws. */
  method LessThan(a: Row, aSort: SortMap, b: Row, bSort: SortMap) returns (less: Option<bool>)
    requires HasColumns(a, aSort) && (aSort == bSort ==> HasColumns(b, bSort))
    ensures if aSort != bSort then less == None else less == Some(Less(aSort, a, b))
  {
    if aSort != bSort { return None; }
    var it := aSort;
    while it != []
      invariant HasColumns(a, it) && HasColumns(b, it) && Less(it, a, b) == Less(aSort, a, b)
      decreases |it|
    {
      var f := it[0];
      var x, y := a[f.column], b[f.column];
      if f.comparison == AsEmpty { return Some(false); }
      if FieldLess(f.comparison, x, y) { return Some(true); }
      if FieldDiffers(f.comparison, x, y) { return Some(false); }
      it := it[1..];
    }
    return Some(false);
  }

  /** Some field before the first one compared as empty, where every comparison ends, is compared as a number. */
  predicate ComparesFloats(sortMap: SortMap) {
    sortMap != [] && sortMap[0].comparison != AsEmpty
    && (sortMap[0].comparison == AsFloat || ComparesFloats(sortMap[1..]))
  }

  /** No number that is looked at is a NaN. */
  predicate Comparable(row: Row, sortMap: SortMap)
    requires HasColumns(row, sortMap)
    decreases |sortMap|
  {
    sortMap != [] && sortMap[0].comparison != AsEmpty ==>
      (sortMap[0].comparison == AsFloat ==> row[sortMap[0].column].float != NaN) && Comparable(row, sortMap[1..])
  }

  predicate Incomparable(sortMap: SortMap, a: Row, b: Row)
    requires HasColumns(a, sortMap) && HasColumns(b, sortMap)
  {
    !Less(sortMap, a, b) && !Less(sortMap, b, a)
  }

  /** The laws of a strict weak order, for three rows: nothing is less than itself, less is transitive, and so is
      incomparability. */
  predicate StrictWeak(sortMap: SortMap, a: Row, b: Row, c: Row)
    requires HasColumns(a, sortMap) && HasColumns(b, sortMap) && HasColumns(c, sortMap)
  {
    !Less(sortMap, a, a) && !(Less(sortMap, a, b) && Less(sortMap, b, a))
    && (Less(sortMap, a, b) && Less(sortMap, b, c) ==> Less(sortMap, a, c))
    && (Incomparable(sortMap, a, b) && Incomparable(sortMap, b, c) ==> Incomparable(sortMap, a, c))
  }

  lemma {:induction false} TextOrder(a: seq<int>, b: seq<int>, c: seq<int>)
    ensures !(TextLess(a, b) && TextLess(b, a)) && !TextLess(a, a)
    ensures TextLess(a, b) && TextLess(b, c) ==> TextLess(a, c)
    ensures a == b || TextLess(a, b) || TextLess(b, a)
    decreases |a|
  {
    if a != [] && b != [] {
      TextOrder(a[1..], b[1..], if c == [] then [] else c[1..]);
      assert a == [a[0]] + a[1..] && b == [b[0]] + b[1..];
    } else if a != [] {
      TextOrder(a[1..], [], []);
    }
  }

  /** One field orders strictly and totally what it does not take for equal, if no NaN is involved. */
  lemma FieldOrder(c: Comparison, x: Value, y: Value, z: Value)
    requires c == AsFloat ==> x.float != NaN && y.float != NaN && z.float != NaN
    requires c != AsEmpty
    ensures FieldDiffers(c, x, y) <==> FieldLess(c, x, y) || FieldLess(c, y, x)
    ensures !(FieldLess(c, x, y) && FieldLess(c, y, x)) && (FieldLess(c, x, y) && FieldLess(c, y, z) ==> FieldLess(c, x, z))
    ensures !FieldDiffers(c, x, y) ==> FieldLess(c, x, z) == FieldLess(c, y, z) && FieldLess(c, z, x) == FieldLess(c, z, y)
                                       && FieldDiffers(c, x, z) == FieldDiffers(c, y, z)
  {
    TextOrder(x.text, y.text, z.text);
  }

  /** Without NaNs the order is strict and weak. */
  lemma {:induction false} StrictWeakOrder(sortMap: SortMap, a: Row, b: Row, c: Row)
    requires HasColumns(a, sortMap) && HasColumns(b, sortMap) && HasColumns(c, sortMap)
    requires Comparable(a, sortMap) && Comparable(b, sortMap) && Comparable(c, sortMap)
    ensures StrictWeak(sortMap, a, b, c)
    decreases |sortMap|
  {
    if sortMap != [] {
      var f := sortMap[0];
      var x, y, z := a[f.column], b[f.column], c[f.column];
      if f.comparison != AsEmpty {
        StrictWeakOrder(sortMap[1..], a, b, c);
        FieldOrder(f.comparison, x, x, x);
        FieldOrder(f.comparison, x, y, z);
        FieldOrder(f.comparison, y, z, x);
        FieldOrder(f.comparison, z, x, y);
        FieldOrder(f.comparison, x, z, y);
        hide FieldLess, FieldDiffers;
      }
    }
  }

  /** One text is less than another if and only if it is a proper prefix of it, or has the smaller character where they first
      differ. */
  lemma {:induction false} TextLessExactly(a: seq<int>, b: seq<int>)
    ensures TextLess(a, b) <==>
            (a < b || exists i :: 0 <= i < |a| && i < |b| && a[..i] == b[..i] && a[i] < b[i])
    decreases |a|
  {
    if a != [] && b != [] && a[0] == b[0] {
      TextLessExactly(a[1..], b[1..]);
      assert a == [a[0]] + a[1..] && b == [b[0]] + b[1..];
      if i :| 0 <= i < |a| && i < |b| && a[..i] == b[..i] && a[i] < b[i] {
        assert i > 0 && a[1..][..i - 1] == a[..i][1..] == b[..i][1..] == b[1..][..i - 1];
        assert a[1..][i - 1] < b[1..][i - 1];
      }
      if i :| 0 <= i < |a[1..]| && i < |b[1..]| && a[1..][..i] == b[1..][..i] && a[1..][i] < b[1..][i] {
        assert a[..i + 1] == [a[0]] + a[1..][..i] && b[..i + 1] == [b[0]] + b[1..][..i];
        assert a[i + 1] < b[i + 1];
      }
    } else if a != [] && b != [] {
      assert a[..0] == b[..0];
    }
  }

  /** Two rows agree in a sort field. */
  predicate SameIn(f: SortField, a: Row, b: Row)
    requires f.column < |a| && f.column < |b|
  {
    match f.comparison
    case AsEmpty => false
    case AsInteger => a[f.column].integer == b[f.column].integer
    case AsFloat => a[f.column].float.Number? && a[f.column].float == b[f.column].float
    case AsString => a[f.column].text == b[f.column].text
  }

  /** The first sort field in which two rows do not agree decides, the smaller integer, number or text coming first; a field
      compared as empty ends the comparison. */
  lemma {:induction false} FirstDifferenceDecides(sortMap: SortMap, k: nat, a: Row, b: Row)
    requires k < |sortMap| && HasColumns(a, sortMap) && HasColumns(b, sortMap)
    requires (forall i :: 0 <= i < k ==> SameIn(sortMap[i], a, b)) && !SameIn(sortMap[k], a, b)
    ensures var c, x, y := sortMap[k].comparison, a[sortMap[k].column], b[sortMap[k].column];
            Less(sortMap, a, b) ==
            match c
            case AsEmpty => false
            case AsInteger => x.integer < y.integer
            case AsFloat => x.float.Number? && y.float.Number? && x.float.value < y.float.value
            case AsString => TextLess(x.text, y.text)
    decreases |sortMap|
  {
    if k > 0 {
      var f := sortMap[0];
      assert SameIn(f, a, b);
      TextOrder(a[f.column].text, a[f.column].text, a[f.column].text);
      assert sortMap[1..][k - 1] == sortMap[k];
      FirstDifferenceDecides(sortMap[1..], k - 1, a, b);
    } else {
      hide TextLess;
    }
  }

  lemma {:induction false} NoFloatsCompared(sortMap: SortMap, row: Row)
    requires HasColumns(row, sortMap) && !ComparesFloats(sortMap)
    ensures Comparable(row, sortMap)
    decreases |sortMap|
  {
    if sortMap != [] && sortMap[0].comparison != AsEmpty { NoFloatsCompared(sortMap[1..], row); }
  }

  /** The column of the first field compared as a number. */
  function FloatColumn(sortMap: SortMap): nat
    requires ComparesFloats(sortMap)
  {
    if sortMap[0].comparison == AsFloat then sortMap[0].column else FloatColumn(sortMap[1..])
  }

  lemma {:induction false} FloatColumnExists(sortMap: SortMap, row: Row)
    requires ComparesFloats(sortMap) && HasColumns(row, sortMap)
    ensures FloatColumn(sortMap) < |row|
    decreases |sortMap|
  {
    if sortMap[0].comparison != AsFloat { FloatColumnExists(sortMap[1..], row); }
  }

  /** A row of zeros, but for one column. */
  function Around(row: Row, column: nat, x: Float): (r: Row)
    requires column < |row|
    ensures |r| == |row|
  {
    seq(|row|, i requires 0 <= i < |row| => if i == column then Value(0, x, []) else Value(0, Number(0.0), []))
  }

  /** Rows that differ in their first number only are ordered by it, however many integers and strings stand before it. */
  lemma {:induction false} FirstFloatDecides(sortMap: SortMap, row: Row, x: Float, y: Float)
    requires ComparesFloats(sortMap) && HasColumns(row, sortMap) && FloatDiffers(x, y)
    ensures FloatColumn(sortMap) < |row|
    ensures Less(sortMap, Around(row, FloatColumn(sortMap), x), Around(row, FloatColumn(sortMap), y)) == FloatLess(x, y)
    decreases |sortMap|
  {
    FloatColumnExists(sortMap, row);
    if sortMap[0].comparison != AsFloat { FirstFloatDecides(sortMap[1..], row, x, y); }
  }

  /** Wherever a number is compared, a NaN is incomparable with both of two numbers of which one is less than the other. */
  lemma NotWeakWithNaN(sortMap: SortMap, row: Row) returns (a: Row, n: Row, b: Row)
    requires ComparesFloats(sortMap) && HasColumns(row, sortMap)
    ensures HasColumns(a, sortMap) && HasColumns(n, sortMap) && HasColumns(b, sortMap)
    ensures Incomparable(sortMap, a, n) && Incomparable(sortMap, n, b) && Less(sortMap, a, b)
  {
    FloatColumnExists(sortMap, row);
    var one, two, column := Number(1.0), Number(2.0), FloatColumn(sortMap);
    a, n, b := Around(row, column, one), Around(row, column, NaN), Around(row, column, two);
    FirstFloatDecides(sortMap, row, one, NaN);
    FirstFloatDecides(sortMap, row, NaN, one);
    FirstFloatDecides(sortMap, row, NaN, two);
    FirstFloatDecides(sortMap, row, two, NaN);
    FirstFloatDecides(sortMap, row, one, two);
  }

  /** A sort map orders all rows strictly and weakly if and only if it compares no numbers before its first empty comparison. */
  lemma StrictWeakExactly(sortMap: SortMap)
    ensures (forall a: Row, b: Row, c: Row ::
              HasColumns(a, sortMap) && HasColumns(b, sortMap) && HasColumns(c, sortMap) ==> StrictWeak(sortMap, a, b, c))
            <==> !ComparesFloats(sortMap)
  {
    if ComparesFloats(sortMap) {
      var a, n, b := NotWeakWithNaN(sortMap, WideRow(sortMap));
      assert !StrictWeak(sortMap, a, n, b);
    } else {
      forall a: Row, b: Row, c: Row | HasColumns(a, sortMap) && HasColumns(b, sortMap) && HasColumns(c, sortMap)
        ensures StrictWeak(sortMap, a, b, c)
      {
        NoFloatsCompared(sortMap, a);
        NoFloatsCompared(sortMap, b);
        NoFloatsCompared(sortMap, c);
        StrictWeakOrder(sortMap, a, b, c);
      }
    }
  }

  /** A row that has all columns of the sort map. */
  function WideRow(sortMap: SortMap): (row: Row)
    ensures HasColumns(row, sortMap)
    decreases |sortMap|
  {
    if sortMap == [] then []
    else
      var row := WideRow(sortMap[1..]);
      assert forall i :: 0 < i < |sortMap| ==> sortMap[i] == sortMap[1..][i - 1];
      row + seq(sortMap[0].column + 1, _ => Value(0, NaN, []))
  }
}
