/** The browser's `localStorage` as the client utilities use it: a
    string-keyed store of texts. The model keeps, per key, what `JSON.parse`
    makes of the stored text: a cache entry object, an array of strings, or
    text that is not parsed (plain text written with `setItem`, or text
    `JSON.parse` rejects). `Serialize` gives back the stored text. */
module BrowserStorage {
  import opened Wrappers

  /** A stored value, as `JSON.parse` sees it. `data` is the JSON text of the
      cached value, which the cache passes through uninterpreted. */
  datatype Stored =
    | Entry(data: string, timestamp: int, ttl: int)   // {"data":…,"timestamp":…,"ttl":…}
    | Ids(ids: seq<string>)                          // ["…","…"]
    | Text(raw: string)                              // anything else

  function DigitChar(d: int): char
    requires 0 <= d < 10
  {
    ('0' as int + d) as char
  }

  /** The decimal text of `n`, as `JSON.stringify` writes an integer. */
  function NatText(n: nat): (r: string)
    ensures |r| >= 1
    decreases n
  {
    if n < 10 then [DigitChar(n)] else NatText(n / 10) + [DigitChar(n % 10)]
  }

  function IntText(i: int): (r: string)
    ensures |r| >= 1
  {
    if i < 0 then "-" + NatText(-i) else NatText(i)
  }

  /** The body of a JSON string literal: `"` and `\` escaped. */
  function Escape(s: string): string
  {
    if s == [] then ""
    else (if s[0] == '"' then "\\\"" else if s[0] == '\\' then "\\\\" else [s[0]]) + Escape(s[1..])
  }

  function Quote(s: string): string
  {
    "\"" + Escape(s) + "\""
  }

  function JoinQuoted(ids: seq<string>): string
  {
    if ids == [] then ""
    else if |ids| == 1 then Quote(ids[0])
    else Quote(ids[0]) + "," + JoinQuoted(ids[1..])
  }

  /** The text stored for a value: `JSON.stringify` of an entry or of an
      array, or the text itself. Only plain text can be empty. */
  function Serialize(v: Stored): (r: string)
    ensures v.Text? ==> r == v.raw
    ensures !v.Text? ==> |r| >= 2
  {
    match v
    case Entry(data, timestamp, ttl) =>
      "{\"data\":" + data + ",\"timestamp\":" + IntText(timestamp) + ",\"ttl\":" + IntText(ttl) + "}"
    case Ids(ids) => "[" + JoinQuoted(ids) + "]"
    case Text(raw) => raw
  }

  /** `localStorage` itself. */
  class LocalStorage {
    var items: map<string, Stored>

    constructor (items: map<string, Stored>)
      ensures this.items == items
    {
      this.items := items;
    }

    /** `getItem(key)`, before parsing: None for a missing key. */
    function GetItem(key: string): (v: Option<Stored>)
      reads this
      ensures v.Some? <==> key in items
      ensures v.Some? ==> v.value == items[key]
    {
      if key in items then Some(items[key]) else None
    }

    method SetItem(key: string, v: Stored)
      modifies this
      ensures items == old(items)[key := v]
    {
      items := items[key := v];
    }

    /** `removeItem(key)`: a missing key is not an error. */
    method RemoveItem(key: string)
      modifies this
      ensures items == old(items) - {key}
    {
      items := items - {key};
    }
  }
}
