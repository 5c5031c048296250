/**
 * The annotation collection of a page (src/podofo/main/PdfAnnotationCollection.cpp):
 * a list of annotation slots, the page's /Annots array of references, and
 * a map from reference to index, built lazily on first use and kept in
 * step by append and removal.
 */
module Annotations {
  import opened Common

  /** An indirect reference to an annotation object. */
  datatype AnnotRef = AnnotRef(objectNumber: nat, generationNumber: nat)

  /** One entry of m_Annots: an annotation, or null where the object is not a valid annotation. */
  datatype Slot = Invalid | Annotation(ref: AnnotRef)

  /** Every map entry names the array position holding its own reference. */
  ghost predicate MapConsistent(arr: seq<AnnotRef>, m: map<AnnotRef, nat>)
  {
    forall r :: r in m ==> m[r] < |arr| && arr[m[r]] == r
  }

  /** The slots line up with the array, and a non-null slot holds that position's reference. */
  ghost predicate SlotsConsistent(arr: seq<AnnotRef>, slots: seq<Slot>)
  {
    |slots| == |arr| && forall i :: 0 <= i < |slots| && slots[i].Annotation? ==> slots[i].ref == arr[i]
  }

  /** fixIndices: every index above `index` moves down by one. */
  function Decremented(m: map<AnnotRef, nat>, index: nat): (r: map<AnnotRef, nat>)
    ensures r.Keys == m.Keys
    ensures forall k :: k in m && m[k] <= index ==> r[k] == m[k]
    ensures forall k :: k in m && m[k] > index ==> r[k] == m[k] - 1
  {
    map k | k in m :: if m[k] > index then m[k] - 1 else m[k]
  }

  /**
   * Removing position `index` from the array, dropping the map entry of
   * the reference stored there and shifting the later indices down keeps
   * every remaining map entry pointing at its own reference.
   */
  lemma RemovalKeepsMapConsistent(arr: seq<AnnotRef>, m: map<AnnotRef, nat>, index: nat)
    requires MapConsistent(arr, m) && index < |arr|
    ensures MapConsistent(RemoveAt(arr, index), Decremented(m - {arr[index]}, index))
  {
    var arr', m' := RemoveAt(arr, index), Decremented(m - {arr[index]}, index);
    forall r | r in m'
      ensures m'[r] < |arr'| && arr'[m'[r]] == r
    {
      assert r != arr[index] && r in m;
      assert m[r] != index;
    }
  }

  /** Removing a position from the array and from the slots keeps them in step. */
  lemma RemovalKeepsSlotsConsistent(arr: seq<AnnotRef>, slots: seq<Slot>, index: nat)
    requires SlotsConsistent(arr, slots) && index < |arr|
    ensures SlotsConsistent(RemoveAt(arr, index), RemoveAt(slots, index))
  {
  }

  /**
   * RemoveAnnotAt as written, on the collection's three parts: the map
   * entry is erased only when the slot holds an annotation, so an invalid
   * slot's reference keeps its entry.
   */
  function RemoveAnnotAtAsWritten(slots: seq<Slot>, arr: seq<AnnotRef>, m: map<AnnotRef, nat>, index: nat)
    : (r: (seq<Slot>, seq<AnnotRef>, map<AnnotRef, nat>))
    requires index < |slots| && index < |arr|
    ensures r.0 == RemoveAt(slots, index) && r.1 == RemoveAt(arr, index)
    ensures slots[index].Invalid? ==> r.2 == Decremented(m, index)
  {
    var m' := if slots[index].Annotation? then m - {slots[index].ref} else m;
    (RemoveAt(slots, index), RemoveAt(arr, index), Decremented(m', index))
  }

  /**
   * On a page whose first /Annots entry is not a valid annotation,
   * removing index 0 leaves that reference mapped to index 0, which now
   * holds the second annotation: looking the stale reference up yields
   * the wrong annotation, and removing it by reference removes the wrong one.
   */
  lemma StaleEntryAfterRemovingInvalidSlot()
    ensures
      var r0, r1 := AnnotRef(10, 0), AnnotRef(11, 0);
      var slots, arr, m := [Invalid, Annotation(r1)], [r0, r1], map[r0 := 0, r1 := 1];
      var after := RemoveAnnotAtAsWritten(slots, arr, m, 0);
      MapConsistent(arr, m) && SlotsConsistent(arr, slots) &&
      r0 in after.2 && after.2[r0] == 0 && after.0[0] == Annotation(r1) &&
      !MapConsistent(after.1, after.2)
  {
    var r0, r1 := AnnotRef(10, 0), AnnotRef(11, 0);
    var after := RemoveAnnotAtAsWritten([Invalid, Annotation(r1)], [r0, r1], map[r0 := 0, r1 := 1], 0);
    assert after.1 == [r1];
    assert after.2[r0] == 0;
  }

  /** The annotations of one page. */
  class AnnotationCollection {
    /** Whether an /Annots entry yields an annotation (PdfAnnotation::TryCreateFromObject). */
    const isValidAnnotation: AnnotRef -> bool
    /** The page's /Annots array, None while the page has none (m_annotArray once initialised). */
    var pageAnnots: Option<seq<AnnotRef>>
    /** Whether the lazy initialisation has run (m_annotMap is not null). */
    var initialized: bool
    /** m_Annots. */
    var annots: seq<Slot>
    /** *m_annotMap. */
    var annotMap: map<AnnotRef, nat>

    /** The /Annots array, empty while the page has none. */
    function Arr(): seq<AnnotRef>
      reads this
    {
      if pageAnnots.Some? then pageAnnots.value else []
    }

    ghost predicate Valid()
      reads this
    {
      && (!initialized ==> annots == [] && annotMap == map[])
      && (initialized ==> SlotsConsistent(Arr(), annots) && MapConsistent(Arr(), annotMap))
    }

    /** The slot list initAnnotations builds from an /Annots array. */
    function SlotsOf(arr: seq<AnnotRef>): (r: seq<Slot>)
      ensures SlotsConsistent(arr, r)
      ensures forall i :: 0 <= i < |arr| ==> (r[i].Annotation? <==> isValidAnnotation(arr[i]))
    {
      seq(|arr|, i requires 0 <= i < |arr| => if isValidAnnotation(arr[i]) then Annotation(arr[i]) else Invalid)
    }

    /** The slots as they are once initialised. */
    ghost function InitSlots(): seq<Slot>
      reads this
    {
      if initialized then annots else SlotsOf(Arr())
    }

    /** The map as it is once initialised. */
    ghost function InitMap(): map<AnnotRef, nat>
      reads this
    {
      if initialized then annotMap else LastIndexMap(Arr())
    }

    constructor (pageAnnots: Option<seq<AnnotRef>>, isValidAnnotation: AnnotRef -> bool)
      ensures Valid() && !initialized
      ensures this.pageAnnots == pageAnnots && this.isValidAnnotation == isValidAnnotation
    {
      this.isValidAnnotation := isValidAnnotation;
      this.pageAnnots := pageAnnots;
      initialized := false;
      annots := [];
      annotMap := map[];
    }

    /**
     * initAnnotations: on the first call only, one slot per /Annots entry
     * (null for an invalid annotation) and `map[arr[i]] := i` for each i.
     */
    method InitAnnotations()
      requires Valid()
      modifies this
      ensures Valid() && initialized && pageAnnots == old(pageAnnots)
      ensures annots == old(InitSlots()) && annotMap == old(InitMap())
    {
      if initialized {
        return;
      }
      initialized := true;
      if pageAnnots.None? {
        return;
      }
      var arr := pageAnnots.value;
      var i := 0;
      while i < |arr|
        invariant 0 <= i <= |arr|
        invariant initialized && pageAnnots == old(pageAnnots)
        invariant annots == SlotsOf(arr[..i]) && annotMap == LastIndexMap(arr[..i])
      {
        assert arr[..i + 1][..i] == arr[..i];
        annotMap := annotMap[arr[i] := i];
        annots := annots + [if isValidAnnotation(arr[i]) then Annotation(arr[i]) else Invalid];
        i := i + 1;
      }
      assert arr[..i] == arr;
      LastIndexMapSpec(arr);
    }

    /** GetCount: the number of slots, which is the length of /Annots. */
    method GetCount() returns (n: nat)
      requires Valid()
      modifies this
      ensures Valid() && initialized && pageAnnots == old(pageAnnots)
      ensures annots == old(InitSlots()) && annotMap == old(InitMap())
      ensures n == |annots| && n == |Arr()|
    {
      InitAnnotations();
      n := |annots|;
    }

    /**
     * addAnnotation: the new annotation's reference gets the index equal to
     * the old array size and is appended to the array (created if the page
     * has none) and to the slots.
     */
    method AddAnnotation(r: AnnotRef)
      requires Valid()
      modifies this
      ensures Valid() && initialized
      ensures pageAnnots == Some(old(Arr()) + [r])
      ensures annots == old(InitSlots()) + [Annotation(r)]
      ensures annotMap == old(InitMap())[r := |old(Arr())|]
    {
      InitAnnotations();
      if pageAnnots.None? {
        pageAnnots := Some([]);
      }
      var arr := pageAnnots.value;
      annotMap := annotMap[r := |arr|];
      pageAnnots := Some(arr + [r]);
      annots := annots + [Annotation(r)];
    }

    /** fixIndices: walks the map and decrements every index above `index`. */
    method FixIndices(index: nat)
      modifies this
      ensures annotMap == Decremented(old(annotMap), index)
      ensures pageAnnots == old(pageAnnots) && annots == old(annots) && initialized == old(initialized)
    {
      var todo := annotMap.Keys;
      while todo != {}
        invariant todo <= old(annotMap).Keys && annotMap.Keys == old(annotMap).Keys
        invariant forall k :: k in annotMap ==>
          annotMap[k] == if k in todo then old(annotMap)[k] else Decremented(old(annotMap), index)[k]
        invariant pageAnnots == old(pageAnnots) && annots == old(annots) && initialized == old(initialized)
        decreases todo
      {
        var k :| k in todo;
        if annotMap[k] > index {
          annotMap := annotMap[k := annotMap[k] - 1];
        }
        todo := todo - {k};
      }
    }

    /**
     * RemoveAnnotAt: an index at or past the count raises ValueOutOfRange
     * and changes nothing; otherwise the position leaves the slots and the
     * array, the map entry of the reference stored there is dropped, and
     * the later indices move down. (See the note on RemoveAnnotAtAsWritten:
     * the source drops the entry only for a non-null slot.)
     */
    method RemoveAnnotAt(index: nat) returns (result: Outcome)
      requires Valid()
      modifies this
      ensures Valid() && initialized
      ensures index >= |old(InitSlots())| ==>
        (result == Fail(ValueOutOfRange) &&
         annots == old(InitSlots()) && annotMap == old(InitMap()) && pageAnnots == old(pageAnnots))
      ensures index < |old(InitSlots())| ==>
        (result == Pass &&
         annots == RemoveAt(old(InitSlots()), index) &&
         pageAnnots == Some(RemoveAt(old(Arr()), index)) &&
         annotMap == Decremented(old(InitMap()) - {old(Arr())[index]}, index))
    {
      InitAnnotations();
      if index >= |annots| {
        return Fail(ValueOutOfRange);
      }
      var arr := pageAnnots.value;
      RemovalKeepsSlotsConsistent(arr, annots, index);
      RemovalKeepsMapConsistent(arr, annotMap, index);
      annotMap := annotMap - {arr[index]};
      pageAnnots := Some(RemoveAt(arr, index));
      annots := RemoveAt(annots, index);
      FixIndices(index);
      result := Pass;
    }

    /**
     * RemoveAnnot: a reference without an entry changes nothing; otherwise
     * its slot, its array entry and its map entry go and the later indices
     * move down.
     */
    method RemoveAnnot(r: AnnotRef)
      requires Valid()
      modifies this
      ensures Valid() && initialized
      ensures r !in old(InitMap()) ==>
        annots == old(InitSlots()) && annotMap == old(InitMap()) && pageAnnots == old(pageAnnots)
      ensures r in old(InitMap()) ==>
        var index := old(InitMap())[r];
        index < |old(Arr())| && old(Arr())[index] == r &&
        annots == RemoveAt(old(InitSlots()), index) &&
        pageAnnots == Some(RemoveAt(old(Arr()), index)) &&
        annotMap == Decremented(old(InitMap()) - {r}, index)
    {
      InitAnnotations();
      if r !in annotMap {
        return;
      }
      var index := annotMap[r];
      var arr := pageAnnots.value;
      RemovalKeepsSlotsConsistent(arr, annots, index);
      RemovalKeepsMapConsistent(arr, annotMap, index);
      annots := RemoveAt(annots, index);
      pageAnnots := Some(RemoveAt(arr, index));
      annotMap := annotMap - {r};
      FixIndices(index);
    }

    /** getAnnotAt: out of range is ValueOutOfRange, a null slot InvalidHandle. */
    method GetAnnotAt(index: nat) returns (result: Result<AnnotRef>)
      requires Valid()
      modifies this
      ensures Valid() && initialized && pageAnnots == old(pageAnnots)
      ensures annots == old(InitSlots()) && annotMap == old(InitMap())
      ensures index >= |annots| ==> result == Err(ValueOutOfRange)
      ensures index < |annots| && annots[index].Invalid? ==> result == Err(InvalidHandle)
      ensures index < |annots| && annots[index].Annotation? ==> result == Ok(Arr()[index])
    {
      InitAnnotations();
      if index >= |annots| {
        return Err(ValueOutOfRange);
      }
      if annots[index].Invalid? {
        return Err(InvalidHandle);
      }
      result := Ok(annots[index].ref);
    }

    /**
     * getAnnot: an unknown reference is rejected by the map lookup, a null
     * slot is InvalidHandle, and otherwise the annotation found is the one
     * whose reference was asked for.
     */
    method GetAnnot(r: AnnotRef) returns (result: Result<AnnotRef>)
      requires Valid()
      modifies this
      ensures Valid() && initialized && pageAnnots == old(pageAnnots)
      ensures annots == old(InitSlots()) && annotMap == old(InitMap())
      ensures r !in annotMap ==> result == Err(KeyNotFound)
      ensures result.Ok? ==> result.value == r
      ensures r in annotMap ==> (result.Ok? <==> annots[annotMap[r]].Annotation?)
      ensures result.Err? && r in annotMap ==> result == Err(InvalidHandle)
    {
      InitAnnotations();
      if r !in annotMap {
        return Err(KeyNotFound);
      }
      var index := annotMap[r];
      if annots[index].Invalid? {
        return Err(InvalidHandle);
      }
      result := Ok(annots[index].ref);
    }
  }
}
