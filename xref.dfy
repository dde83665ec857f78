/**
  The shape the xref records' fields describe: a subsection covers the
  contiguous run of object numbers named by its header, one row per number,
  and a table's flattened objects are exactly the rows of its subsections.
  The records themselves (types.go) do not enforce this; the decoders that
  fill them in are not part of this model.
*/
module XrefLayout {
  import opened PdfParser

  /** The object numbers first, first + 1, ..., first + count - 1. */
  function ObjectRange(first: Int64, count: nat): (r: set<Int64>)
    requires first + count - 1 <= 0x7FFF_FFFF_FFFF_FFFF
    ensures forall n: Int64 :: n in r <==> first <= n < first + count
    decreases count
  {
    if count == 0 then {} else ObjectRange(first, count - 1) + {first + count - 1}
  }

  /** A subsection consistent with its header line. */
  predicate ValidSubsection(s: ObjectSubsection) {
    && s.id == s.firstSubsectionObjectId
    && 0 <= s.objectsCount
    && s.lastSubsectionObjectId == s.firstSubsectionObjectId + s.objectsCount - 1
    && s.elements.Keys == ObjectRange(s.firstSubsectionObjectId, s.objectsCount)
    && (forall n :: n in s.elements ==> s.elements[n].id == n)
  }

  /** A table whose subsections are valid, keyed by their first id, and flattened into objects. */
  predicate ValidXrefTable(t: XrefTable) {
    && (forall k :: k in t.objectSubsections ==>
          t.objectSubsections[k].id == k && ValidSubsection(t.objectSubsections[k]))
    && (forall k, n :: k in t.objectSubsections && n in t.objectSubsections[k].elements ==>
          n in t.objects && t.objects[n] == t.objectSubsections[k].elements[n])
    && (forall n :: n in t.objects ==>
          exists k :: k in t.objectSubsections && n in t.objectSubsections[k].elements)
  }

  /** count consecutive numbers form a set of count elements. */
  lemma {:induction false} ObjectRangeSize(first: Int64, count: nat)
    requires first + count - 1 <= 0x7FFF_FFFF_FFFF_FFFF
    ensures |ObjectRange(first, count)| == count
  {
    if count > 0 {
      ObjectRangeSize(first, count - 1);
      assert first + count - 1 !in ObjectRange(first, count - 1);
    }
  }

  /** A valid subsection holds exactly objectsCount rows. */
  lemma SubsectionSize(s: ObjectSubsection)
    requires ValidSubsection(s)
    ensures |s.elements| == s.objectsCount
  {
    ObjectRangeSize(s.firstSubsectionObjectId, s.objectsCount);
    assert |s.elements| == |s.elements.Keys|;
  }

  /** A valid subsection has a row for n exactly when n lies between its first and last ids. */
  lemma SubsectionCovers(s: ObjectSubsection, n: Int64)
    requires ValidSubsection(s)
    ensures n in s.elements <==> s.firstSubsectionObjectId <= n <= s.lastSubsectionObjectId
  {
  }

  /** In a valid table, a subsection whose header range covers n supplies n's flattened row. */
  lemma CoveringSubsectionRow(t: XrefTable, k: Int64, n: Int64)
    requires ValidXrefTable(t)
    requires k in t.objectSubsections
    requires t.objectSubsections[k].firstSubsectionObjectId <= n <= t.objectSubsections[k].lastSubsectionObjectId
    ensures n in t.objects && t.objects[n] == t.objectSubsections[k].elements[n]
  {
  }

  /** In a valid table, every flattened row lies in the header range of some subsection. */
  lemma RowHasCoveringSubsection(t: XrefTable, n: Int64)
    requires ValidXrefTable(t)
    requires n in t.objects
    ensures exists k ::
              && k in t.objectSubsections
              && t.objectSubsections[k].firstSubsectionObjectId <= n <= t.objectSubsections[k].lastSubsectionObjectId
              && t.objects[n] == t.objectSubsections[k].elements[n]
  {
  }
}
