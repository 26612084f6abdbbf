/** `Element<T>` (`include/data/element.h`): the coordinator's handle on a
    distributed array. It records how many values the array holds and, for
    each chunk id a worker returned, the element bounds the chunk covers. */
module Elements {
  import opened Bytes

  /** The `(lower, upper)` element indices of a chunk, both included. */
  datatype Bounds = Bounds(lower: nat, upper: nat)

  class Element {
    var nbValues: uint64
    var vars: map<string, Bounds>

    /** `Element(nb_values)`: a handle on `nb_values` values, no chunk yet. */
    constructor (nbValues: uint64)
      ensures GetNbValues() == nbValues && GetVariables() == map[]
    {
      this.nbValues := nbValues;
      vars := map[];
    }

    /** `addId(id, bounds)`: records the bounds of chunk `id`, replacing any
        bounds recorded for it before. The value count does not change. */
    method AddId(id: string, b: Bounds)
      modifies this
      ensures GetVariables() == old(GetVariables())[id := b]
      ensures id in GetVariables() && GetVariables()[id] == b
      ensures forall other :: other != id && other in old(GetVariables()) ==>
        other in GetVariables() && GetVariables()[other] == old(GetVariables())[other]
      ensures |GetVariables()| == if id in old(GetVariables()) then |old(GetVariables())| else |old(GetVariables())| + 1
      ensures GetNbValues() == old(GetNbValues())
    {
      MapUpdateSize(vars, id, b);
      vars := vars[id := b];
    }

    function GetVariables(): map<string, Bounds>
      reads this
    {
      vars
    }

    function GetNbValues(): uint64
      reads this
    {
      nbValues
    }
  }

  /** Recording bounds under a new id adds one entry; under a known id it
      keeps the number of entries. */
  lemma MapUpdateSize(m: map<string, Bounds>, id: string, b: Bounds)
    ensures |m[id := b]| == if id in m then |m| else |m| + 1
  {
    if id in m {
      assert m[id := b].Keys == m.Keys;
    } else {
      assert m[id := b].Keys == m.Keys + {id};
    }
  }
}
