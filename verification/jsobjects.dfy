/**
  How a JavaScript object used as a dictionary answers `obj[name]`. An object
  literal `{}` inherits the members of `Object.prototype`, so looking up a
  name such as `constructor` finds a function even when nothing was stored
  under it; an object made with `Object.create(null)` inherits nothing.
 */
module JsObjects {

  /**
    The names `Object.prototype` answers for. `__proto__` is left out: storing
    under it replaces the prototype instead of adding an entry.
   */
  const ObjectPrototypeMembers: set<string> := {
    "constructor", "hasOwnProperty", "isPrototypeOf", "propertyIsEnumerable",
    "toLocaleString", "toString", "valueOf",
    "__defineGetter__", "__defineSetter__", "__lookupGetter__", "__lookupSetter__"
  }

  /** The prototype a dictionary is made with: `{}` or `Object.create(null)`. */
  datatype Prototype = ObjectPrototype | NullPrototype

  /**
    What `obj[name]` yields: a stored value, a member inherited from the
    prototype, or `undefined`. Stored values and inherited members are both
    objects, so both are truthy.
   */
  datatype Property<+V> = Own(value: V) | Inherited(member: string) | Undefined

  /** `obj[name]` on a dictionary holding `m` and made with `proto`. */
  function Get<V>(m: map<string, V>, proto: Prototype, name: string): Property<V> {
    if name in m then Own(m[name])
    else if proto == ObjectPrototype && name in ObjectPrototypeMembers then Inherited(name)
    else Undefined
  }

  /** The two kinds of dictionary answer alike for every name `Object.prototype` does not have. */
  lemma GetAwayFromPrototypeNames<V>(m: map<string, V>, name: string)
    requires name !in ObjectPrototypeMembers
    ensures Get(m, ObjectPrototype, name) == Get(m, NullPrototype, name)
  {
  }
}
