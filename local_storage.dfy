/** A `localStorage` slot as the library reads it: nothing (or the empty string), text that
    `JSON.parse` rejects, or a parsed JSON value. */
module LocalStorage {
  import Json

  datatype StoredItem = Absent | Unparseable | Parsed(value: Json.Value)
}
