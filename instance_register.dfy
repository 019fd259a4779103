/**
 * The per-type singleton slots of the scheduler (InstanceRegister<T> in
 * Server/Core/Simulation.InstanceRegister.cs) and the GetModel / SetModel /
 * DestroyModel accessors over them (Server/Core/Simulation.cs).
 * A type is named by a string; each type has one slot, created with `new T()`
 * the first time the type is touched, and a slot may hold null.
 */
module InstanceRegisters {
  import opened Wrappers

  /** A model object: an instance of the named type. */
  class Instance {
    const typeName: string
    constructor (typeName: string)
      ensures this.typeName == typeName
    {
      this.typeName := typeName;
    }
  }

  class Register {
    /**
     * The slots initialised so far. A type absent from the map has not been
     * touched yet; its static initialiser has not run. None stands for null.
     */
    var slots: map<string, Option<Instance>>

    constructor ()
      ensures slots == map[]
    {
      slots := map[];
    }

    /** The static initialiser of InstanceRegister<T>: the first touch creates `new T()`. */
    method Touch(t: string)
      modifies this
      ensures t in slots
      ensures t in old(slots) ==> slots == old(slots)
      ensures t !in old(slots) ==>
                slots[t].Some? && fresh(slots[t].value) && slots[t].value.typeName == t
                && slots == old(slots)[t := slots[t]]
    {
      if t !in slots {
        var x := new Instance(t);
        slots := slots[t := Some(x)];
      }
    }

    /** GetModel<T>: the current slot; before any SetModel or DestroyModel it is a fresh `new T()`. */
    method GetModel(t: string) returns (r: Option<Instance>)
      modifies this
      ensures t in slots && r == slots[t]
      ensures t in old(slots) ==> slots == old(slots) && r == old(slots)[t]
      ensures t !in old(slots) ==>
                r.Some? && fresh(r.value) && r.value.typeName == t && slots == old(slots)[t := r]
    {
      Touch(t);
      r := slots[t];
    }

    /** SetModel<T>(x): the slot of `t` holds x; every other slot is unchanged. */
    method SetModel(t: string, x: Option<Instance>)
      modifies this
      ensures slots == old(slots)[t := x]
    {
      Touch(t);
      slots := slots[t := x];
    }

    /** DestroyModel<T>: the slot of `t` holds null; every other slot is unchanged. */
    method DestroyModel(t: string)
      modifies this
      ensures slots == old(slots)[t := None]
    {
      Touch(t);
      slots := slots[t := None];
    }
  }

  /**
   * SetModel then GetModel returns what was set, and DestroyModel then GetModel
   * returns null; neither disturbs the slot of another type.
   */
  method SetGetDestroy(reg: Register, t: string, u: string, x: Instance)
    returns (afterSet: Option<Instance>, afterDestroy: Option<Instance>, other: Option<Instance>, otherAfter: Option<Instance>)
    requires t != u
    modifies reg
    ensures afterSet == Some(x) && afterDestroy == None && otherAfter == other
  {
    other := reg.GetModel(u);
    reg.SetModel(t, Some(x));
    afterSet := reg.GetModel(t);
    reg.DestroyModel(t);
    afterDestroy := reg.GetModel(t);
    otherAfter := reg.GetModel(u);
  }
}
