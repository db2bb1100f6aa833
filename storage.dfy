/**
 * The browser's `localStorage`: a string-keyed store surviving page reloads.
 * `JSON.stringify`/`JSON.parse` are taken as the identity on string maps, so a
 * serialized record is stored as the map itself.
 */
module Storage {
  import opened Optional

  datatype Item = Plain(text: string) | Json(record: map<string, string>)

  class LocalStorage {
    var items: map<string, Item>

    constructor (items: map<string, Item>)
      ensures this.items == items
    {
      this.items := items;
    }

    /** `getItem`: the stored item, or nothing when the key is absent. */
    function GetItem(key: string): (r: Option<Item>)
      reads this
      ensures r.Some? <==> key in items
      ensures r.Some? ==> r.value == items[key]
    {
      if key in items then Some(items[key]) else None
    }

    /** `setItem`: overwrites one key and leaves every other key as it was. */
    method SetItem(key: string, item: Item)
      modifies this
      ensures items == old(items)[key := item]
    {
      items := items[key := item];
    }
  }
}
