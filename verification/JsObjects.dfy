/** Plain JavaScript objects keyed by text: own properties, and the names Object.prototype answers for. */
module JsObjects {
  /** `inherits`: the prototype is still Object.prototype. */
  datatype Object<+T> = Object(own: map<string, T>, inherits: bool)

  const PROTO: string := "__proto__"

  /** The names a plain object reads without owning them. */
  const INHERITED: set<string> := {
    "constructor", "toString", "toLocaleString", "valueOf", "hasOwnProperty", "isPrototypeOf", "propertyIsEnumerable",
    "__defineGetter__", "__defineSetter__", "__lookupGetter__", "__lookupSetter__", PROTO
  }

  /** o[name] is answered by the prototype. */
  predicate Leaks<T>(o: Object<T>, name: string) {
    o.inherits && name in INHERITED && name !in o.own
  }

  /** String(o[name]) where the prototype answers: a built-in function, or the prototype itself as JSON. */
  function InheritedText(name: string): string {
    if name == PROTO then "{}"
    else "function " + (if name == "constructor" then "Object" else name) + "() { [native code] }"
  }

  /** o[name] = value. Assigning to __proto__ meets a setter: a text is ignored, null cuts the prototype off. */
  function Assign<T>(o: Object<T>, name: string, value: T, isNull: bool): Object<T> {
    if name == PROTO && o.inherits && PROTO !in o.own then (if isNull then o.(inherits := false) else o)
    else o.(own := o.own[name := value])
  }
}
