/**
 Objects with behaviour: the `product` class of privateProperties.js, whose
 private `#name` is guarded by a type-checking setter, and the
 `multiplyNumeric`/`multiplyNum` functions of JS/objects.js and objects.js,
 which double the numeric properties of a plain object in place.
 */
module ObjectsClasses {
  import opened Common

  // ---------------------------------------------------------------------------
  // privateProperties.js: class product
  // ---------------------------------------------------------------------------

  /** An instance: the private fields `#name` and `#price` and the public
      `description`. The constructor does not check types, so each may hold any value. */
  datatype Product = Product(name: JsValue, price: JsValue, description: JsValue)

  /** `new product(n, p, d)`. */
  function NewProduct(n: JsValue, p: JsValue, d: JsValue): (r: Product)
    ensures r.name == n && r.price == p && r.description == d
  {
    Product(n, p, d)
  }

  /** `set name(n)`: a non-string is refused (after a console message) and
      leaves the instance as it was; a string replaces `#name`. */
  function SetName(prod: Product, n: JsValue): (r: Product)
    ensures n.JsString? ==> r.name == n
    ensures !n.JsString? ==> r == prod
    ensures r.price == prod.price && r.description == prod.description
  {
    if !n.JsString? then prod else prod.(name := n)
  }

  /** `get name()`. */
  function GetName(prod: Product): (r: JsValue)
    ensures r == prod.name
  {
    prod.name
  }

  /** The getter returns the name last accepted by the setter or, failing that, the constructor. */
  lemma {:induction false} SetThenGet(prod: Product, n: JsValue)
    ensures n.JsString? ==> GetName(SetName(prod, n)) == n
    ensures !n.JsString? ==> GetName(SetName(prod, n)) == GetName(prod)
    ensures SetName(SetName(prod, n), n) == SetName(prod, n)
  {
  }

  /** Setting the name back to what the getter returns changes nothing when it is a string. */
  lemma {:induction false} GetThenSet(prod: Product)
    requires prod.name.JsString?
    ensures SetName(prod, GetName(prod)) == prod
  {
  }

  /** The script: `new product('bag', 100, 'something .....')`, then
      `p.name = "izhar"`; the commented-out `p.name = -1` would be refused. */
  lemma {:induction false} ProductExample()
    ensures var p := NewProduct(JsString("bag"), JsNumber(100), JsString("something ....."));
      && GetName(SetName(p, JsString("izhar"))) == JsString("izhar")
      && SetName(p, JsNumber(-1)) == p
  {
  }

  // ---------------------------------------------------------------------------
  // JS/objects.js multiplyNumeric, objects.js multiplyNum
  // ---------------------------------------------------------------------------

  /** A property value after the loop body: numbers doubled, anything else as it was. */
  function Doubled(v: JsValue): JsValue
  {
    if v.JsNumber? then JsNumber(v.n * 2) else v
  }

  /** The `for…in` loop over `keys`, in order: each key's value is replaced by its doubled value. */
  function DoubleEach(vals: map<string, JsValue>, keys: seq<string>): (r: map<string, JsValue>)
    requires forall k | k in keys :: k in vals
    ensures r.Keys == vals.Keys
    ensures forall k | k in vals && k !in keys :: r[k] == vals[k]
    decreases |keys|
  {
    if |keys| == 0 then vals
    else
      var k := keys[|keys| - 1];
      var before := DoubleEach(vals, keys[..|keys| - 1]);
      before[k := Doubled(before[k])]
  }

  /** `multiplyNumeric(obj)` (JS/objects.js) and `multiplyNum(nums)` (objects.js):
      the object's properties after the call, which returns nothing. Every numeric
      property is doubled, every other property is unchanged, and no key is added or removed. */
  function MultiplyNumeric(obj: InsertionMap<string, JsValue>): (r: InsertionMap<string, JsValue>)
    requires obj.Valid()
    ensures r.Valid()
    ensures r.keys == obj.keys
    ensures r.vals.Keys == obj.vals.Keys
    ensures forall k | k in obj.vals && obj.vals[k].JsNumber? :: r.vals[k] == JsNumber(obj.vals[k].n * 2)
    ensures forall k | k in obj.vals && !obj.vals[k].JsNumber? :: r.vals[k] == obj.vals[k]
  {
    DoubleEachVisitsOnce(obj.vals, obj.keys);
    InsertionMap(obj.keys, DoubleEach(obj.vals, obj.keys))
  }

  /** With distinct keys, each key is visited exactly once. */
  lemma {:induction false} DoubleEachVisitsOnce(vals: map<string, JsValue>, keys: seq<string>)
    requires forall k | k in keys :: k in vals
    requires Distinct(keys)
    ensures forall k | k in vals ::
      DoubleEach(vals, keys)[k] == if k in keys then Doubled(vals[k]) else vals[k]
    decreases |keys|
  {
    if |keys| > 0 {
      DoubleEachVisitsOnce(vals, keys[..|keys| - 1]);
      var k := keys[|keys| - 1];
      assert k !in keys[..|keys| - 1];
      forall x | x in keys
        ensures x == k || x in keys[..|keys| - 1]
      {
        var i :| 0 <= i < |keys| && keys[i] == x;
        if i < |keys| - 1 {
          assert keys[..|keys| - 1][i] == x;
        }
      }
    }
  }

  /** The object `nums` of JS/objects.js. */
  const ScriptNums := InsertionMap(["a", "b", "title"],
    map["a" := JsNumber(100), "b" := JsNumber(200), "title" := JsString("My Nums")])

  /** The scripts' object `{ a: 100, b: 200, title: "My Nums" }` becomes `{ a: 200, b: 400, title: "My Nums" }`. */
  lemma {:induction false} MultiplyNumericExample()
    ensures ScriptNums.Valid()
    ensures MultiplyNumeric(ScriptNums).keys == ["a", "b", "title"]
    ensures var r := MultiplyNumeric(ScriptNums).vals;
      && r["a"] == JsNumber(200) && r["b"] == JsNumber(400) && r["title"] == JsString("My Nums")
  {
    assert ScriptNums.Valid();
    assert "a" in ScriptNums.vals && "b" in ScriptNums.vals && "title" in ScriptNums.vals;
  }
}
