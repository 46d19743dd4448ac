/** Attribute bags: the open key/value records stored for each node.
    Every attribute value the graph and the loader inspect is a string, so a
    bag maps attribute names to strings; an attribute that is `null` or
    `undefined` in the original records is simply absent from the map. */
module Attributes {

  type Bag = map<string, string>

  /** JavaScript truthiness of `bag[key]`: present and not the empty string. */
  predicate Truthy(bag: Bag, key: string) {
    key in bag && bag[key] != ""
  }

  /** `!!bag.parentId` */
  predicate HasParent(bag: Bag) {
    Truthy(bag, "parentId")
  }

  function ParentOf(bag: Bag): string
    requires HasParent(bag)
  {
    bag["parentId"]
  }

  /** The value the collator sees for `bag.name`: a missing name is converted
      to the string "undefined", as `Intl.Collator.prototype.compare` does. */
  function NameOf(bag: Bag): string {
    if "name" in bag then bag["name"] else "undefined"
  }
}
