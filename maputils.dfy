/** `PointerSliceToValueSlice` of internal/utils/mapUtils.go.  A Go slice of
    task pointers is an optional sequence (a nil slice is `None`) of optional
    tasks (a nil pointer is `None`). */
module MapUtils {
  import opened Wrappers
  import opened Tasks

  /** The value one slot ends up with: the task pointed to, or the zero task
      that `make` left there for a nil pointer. */
  function SlotValue(pointer: Option<Task>): Task {
    pointer.GetOr(ZeroTask)
  }

  /** Copies the pointed-to tasks into a freshly made slice of values, slot by
      slot: nil stays nil, the length and the order are kept, and a nil
      element leaves the zero task in its slot. */
  method PointerSliceToValueSlice(pointers: Option<seq<Option<Task>>>) returns (values: Option<seq<Task>>)
    ensures pointers.None? <==> values.None?
    ensures pointers == Some([]) ==> values == Some([])
    ensures pointers.Some? ==> |values.value| == |pointers.value|
    ensures pointers.Some? ==> forall i :: 0 <= i < |pointers.value| && pointers.value[i].Some? ==>
              values.value[i] == pointers.value[i].value
    ensures pointers.Some? ==> forall i :: 0 <= i < |pointers.value| && pointers.value[i].None? ==>
              values.value[i] == ZeroTask
  {
    if pointers.None? {
      return None;
    }
    var ps := pointers.value;
    var slots := new Task[|ps|](_ => ZeroTask);
    for i := 0 to |ps|
      invariant forall j :: 0 <= j < i ==> slots[j] == SlotValue(ps[j])
      invariant forall j :: i <= j < |ps| ==> slots[j] == ZeroTask
    {
      if ps[i].Some? {
        slots[i] := ps[i].value;
      }
    }
    assert |slots[..]| == |ps|;
    return Some(slots[..]);
  }
}
