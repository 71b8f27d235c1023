/** Helpers for building QuestDB queries in the browser: quoting a column
    name as an SQL identifier, and finding the column that holds the device
    id. The column list that `probeColumns` fetches from the database is an
    input (None when the probe fails). */
module QuestDbHelpers {
  import opened Wrappers
  import opened Strings
  import opened BrowserStorage
  import opened Cache

  // ---------------------------------------------------------------------
  // Identifier quoting

  predicate IsIdentifierStart(c: char)
  {
    'a' <= c <= 'z' || c == '_'
  }

  predicate IsIdentifierChar(c: char)
  {
    IsIdentifierStart(c) || '0' <= c <= '9'
  }

  /** `/^[a-z_][a-z0-9_]*$/.test(name)` */
  predicate IsPlainIdentifier(name: string)
  {
    |name| > 0 && IsIdentifierStart(name[0]) && forall i :: 1 <= i < |name| ==> IsIdentifierChar(name[i])
  }

  /** `s.replace(/"/g, '""')` */
  function DoubleQuotes(s: string): (r: string)
    ensures |r| >= |s|
  {
    if s == [] then ""
    else (if s[0] == '"' then "\"\"" else [s[0]]) + DoubleQuotes(s[1..])
  }

  /** `quoteIdentifier(name)`: a plain lower-case identifier as it is, any
      other name in double quotes with its own quotes doubled. */
  function QuoteIdentifier(name: string): (r: string)
    ensures r == name <==> IsPlainIdentifier(name)
    ensures !IsPlainIdentifier(name) ==> |r| >= |name| + 2 && r[0] == '"' && r[|r| - 1] == '"'
  {
    if IsPlainIdentifier(name) then name else "\"" + DoubleQuotes(name) + "\""
  }

  /** How the database reads the inside of a quoted identifier: `""` is one
      quote, and a lone quote would have ended the identifier. */
  function Undouble(s: string): Option<string>
  {
    if s == [] then Some("")
    else if s[0] == '"' then
      if |s| >= 2 && s[1] == '"' then
        match Undouble(s[2..])
        case Some(rest) => Some("\"" + rest)
        case None => None
      else None
    else
      match Undouble(s[1..])
      case Some(rest) => Some([s[0]] + rest)
      case None => None
  }

  /** The name an identifier in a query stands for. */
  function Unquote(identifier: string): Option<string>
  {
    if |identifier| >= 2 && identifier[0] == '"' && identifier[|identifier| - 1] == '"' then
      Undouble(identifier[1..|identifier| - 1])
    else
      Some(identifier)
  }

  lemma {:induction false} UndoubleDoubleQuotes(s: string)
    ensures Undouble(DoubleQuotes(s)) == Some(s)
  {
    if s != [] {
      UndoubleDoubleQuotes(s[1..]);
      var d := DoubleQuotes(s);
      if s[0] == '"' {
        assert d == "\"\"" + DoubleQuotes(s[1..]);
        assert d[2..] == DoubleQuotes(s[1..]);
      } else {
        assert d == [s[0]] + DoubleQuotes(s[1..]);
        assert d[1..] == DoubleQuotes(s[1..]);
      }
      assert s == [s[0]] + s[1..];
    }
  }

  /** Every name, quoted or not, is read back by the database as itself. */
  lemma QuoteIdentifierRoundTrip(name: string)
    ensures Unquote(QuoteIdentifier(name)) == Some(name)
  {
    var q := QuoteIdentifier(name);
    if IsPlainIdentifier(name) {
      assert q == name && IsIdentifierStart(q[0]);
    } else {
      var d := DoubleQuotes(name);
      assert q == "\"" + d + "\"";
      assert q[1..|q| - 1] == d;
      UndoubleDoubleQuotes(name);
    }
  }

  // ---------------------------------------------------------------------
  // Device column selection

  /** The column names tried first, in priority order. */
  const Candidates: seq<string> :=
    ["device_id", "deviceId", "device", "dev_id", "id", "device_name", "device-name", "mac", "deviceid"]

  /** The name used when nothing better is found. */
  const FallbackColumn: string := "device_id"

  /** `toLowerCase` on ASCII letters. */
  function LowerChar(c: char): char
  {
    if 'A' <= c <= 'Z' then (c as int + 32) as char else c
  }

  function Lower(s: string): (r: string)
    ensures |r| == |s| && forall i :: 0 <= i < |s| ==> r[i] == LowerChar(s[i])
  {
    seq(|s|, i requires 0 <= i < |s| => LowerChar(s[i]))
  }

  predicate SameIgnoringCase(a: string, b: string)
  {
    Lower(a) == Lower(b)
  }

  /** `s.includes(part)` */
  predicate Contains(s: string, part: string)
  {
    StartsWith(s, part) || (s != [] && Contains(s[1..], part))
  }

  /** `cols.find(c => c.toLowerCase() === candidate.toLowerCase())`: the
      first column equal to the candidate ignoring case, spelled as the
      column list spells it. */
  function FindIgnoringCase(cols: seq<string>, candidate: string): (r: Option<string>)
    ensures r.None? <==> forall c :: c in cols ==> !SameIgnoringCase(c, candidate)
    ensures r.Some? ==> exists i :: 0 <= i < |cols| && cols[i] == r.value && SameIgnoringCase(r.value, candidate)
                          && forall j :: 0 <= j < i ==> !SameIgnoringCase(cols[j], candidate)
  {
    if cols == [] then None
    else if SameIgnoringCase(cols[0], candidate) then Some(cols[0])
    else
      var r := FindIgnoringCase(cols[1..], candidate);
      if r.Some? then
        var i :| 0 <= i < |cols[1..]| && cols[1..][i] == r.value && SameIgnoringCase(r.value, candidate)
                 && forall j :: 0 <= j < i ==> !SameIgnoringCase(cols[1..][j], candidate);
        assert cols[i + 1] == r.value;
        r
      else
        r
  }

  /** `cols.find(c => c.toLowerCase().includes(part))`: the first column
      whose lower-cased name contains `part`. */
  function FindContaining(cols: seq<string>, part: string): (r: Option<string>)
    ensures r.None? <==> forall c :: c in cols ==> !Contains(Lower(c), part)
    ensures r.Some? ==> exists i :: 0 <= i < |cols| && cols[i] == r.value && Contains(Lower(r.value), part)
                          && forall j :: 0 <= j < i ==> !Contains(Lower(cols[j]), part)
  {
    if cols == [] then None
    else if Contains(Lower(cols[0]), part) then Some(cols[0])
    else
      var r := FindContaining(cols[1..], part);
      if r.Some? then
        var i :| 0 <= i < |cols[1..]| && cols[1..][i] == r.value && Contains(Lower(r.value), part)
                 && forall j :: 0 <= j < i ==> !Contains(Lower(cols[1..][j]), part);
        assert cols[i + 1] == r.value;
        r
      else
        r
  }

  /** The candidate loop: the match for the first candidate that some
      column matches. */
  function MatchCandidates(cols: seq<string>, candidates: seq<string>): (r: Option<string>)
    ensures r.None? <==> forall k :: 0 <= k < |candidates| ==> FindIgnoringCase(cols, candidates[k]).None?
    ensures r.Some? ==> r.value in cols && exists c :: c in candidates && SameIgnoringCase(r.value, c)
  {
    if candidates == [] then None
    else
      var found := FindIgnoringCase(cols, candidates[0]);
      if found.Some? then
        assert candidates[0] in candidates;
        found
      else
        var r := MatchCandidates(cols, candidates[1..]);
        assert forall c :: c in candidates[1..] ==> c in candidates;
        assert forall k :: 0 <= k < |candidates[1..]| ==> candidates[1..][k] == candidates[k + 1];
        r
  }

  /** Nothing in `cols` matches a candidate or mentions "device" or "id". */
  predicate NoDeviceColumn(cols: seq<string>, candidates: seq<string>)
  {
    forall c :: c in cols ==>
      (forall k :: 0 <= k < |candidates| ==> !SameIgnoringCase(c, candidates[k]))
      && !Contains(Lower(c), "device") && !Contains(Lower(c), "id")
  }

  /** The selection rule over a probed column list: a candidate match
      first, then a column mentioning "device", then one mentioning "id". */
  function ChooseFrom(cols: seq<string>, candidates: seq<string>): (r: Option<string>)
    requires forall d :: d in candidates ==> d != ""
    ensures r.Some? ==> r.value in cols && r.value != ""
    ensures r.None? <==> NoDeviceColumn(cols, candidates)
    ensures MatchCandidates(cols, candidates).Some? ==> r == MatchCandidates(cols, candidates)
    ensures MatchCandidates(cols, candidates).None? ==>
              r == (if FindContaining(cols, "device").Some? then FindContaining(cols, "device")
                    else FindContaining(cols, "id"))
  {
    var byCandidate := MatchCandidates(cols, candidates);
    if byCandidate.Some? then
      NonEmptyMatch(cols, candidates, byCandidate.value);
      byCandidate
    else
      var byDevice := FindContaining(cols, "device");
      if byDevice.Some? then
        ContainsNonEmpty(Lower(byDevice.value), "device");
        byDevice
      else
        var byId := FindContaining(cols, "id");
        if byId.Some? then
          ContainsNonEmpty(Lower(byId.value), "id");
          byId
        else
          assert NoDeviceColumn(cols, candidates) by {
            forall c, k | c in cols && 0 <= k < |candidates|
              ensures !SameIgnoringCase(c, candidates[k])
            {
              assert FindIgnoringCase(cols, candidates[k]).None?;
            }
          }
          None
  }

  lemma {:induction false} ContainsNonEmpty(s: string, part: string)
    requires part != "" && Contains(s, part)
    ensures s != ""
  {
  }

  /** The column `getDeviceColumnName` settles on from a probe result, or
      None when it falls back to the last resort. */
  function ChooseColumn(cols: Option<seq<string>>): (r: Option<string>)
    ensures r.Some? ==> cols.Some? && r.value in cols.value && r.value != ""
    ensures r.None? <==> cols.None? || NoDeviceColumn(cols.value, Candidates)
    ensures cols.Some? && MatchCandidates(cols.value, Candidates).Some? ==> r == MatchCandidates(cols.value, Candidates)
    ensures cols.Some? && MatchCandidates(cols.value, Candidates).None? ==>
              r == (if FindContaining(cols.value, "device").Some? then FindContaining(cols.value, "device")
                    else FindContaining(cols.value, "id"))
  {
    CandidatesNonEmpty();
    if cols.None? || |cols.value| == 0 then None else ChooseFrom(cols.value, Candidates)
  }

  lemma CandidatesNonEmpty()
    ensures forall d :: d in Candidates ==> d != ""
  {
  }

  /** A column that matches a candidate is as long as the candidate, so it
      is never the empty string. */
  lemma NonEmptyMatch(cols: seq<string>, candidates: seq<string>, c: string)
    requires forall d :: d in candidates ==> d != ""
    requires MatchCandidates(cols, candidates) == Some(c)
    ensures c != ""
  {
    var d :| d in candidates && SameIgnoringCase(c, d);
    assert |Lower(c)| == |Lower(d)| == |d|;
  }

  /** The column name `getDeviceColumnName` returns after probing: always a
      column of the probed table or the literal "device_id". */
  function DeviceColumn(cols: Option<seq<string>>): (r: string)
    ensures r != ""
    ensures r == FallbackColumn || (cols.Some? && r in cols.value)
    ensures r != FallbackColumn && cols.Some? ==> ChooseColumn(cols) == Some(r)
  {
    ChooseColumn(cols).GetOr(FallbackColumn)
  }

  /** The candidate loop of `getDeviceColumnName`, followed by the two
      fallbacks. */
  method SelectColumn(cols: Option<seq<string>>) returns (found: Option<string>)
    ensures found == ChooseColumn(cols)
  {
    if cols.None? || |cols.value| == 0 {
      return None;
    }
    var columns := cols.value;
    for k := 0 to |Candidates|
      invariant forall j :: 0 <= j < k ==> FindIgnoringCase(columns, Candidates[j]).None?
    {
      var match_ := FindIgnoringCase(columns, Candidates[k]);
      if match_.Some? {
        assert MatchCandidates(columns, Candidates) == match_ by {
          MatchCandidatesFirst(columns, Candidates, k);
        }
        return match_;
      }
    }
    found := FindContaining(columns, "device");
    if found.None? {
      found := FindContaining(columns, "id");
    }
  }

  /** The candidate loop's answer is the match for the first candidate that
      has one. */
  lemma {:induction false} MatchCandidatesFirst(cols: seq<string>, candidates: seq<string>, k: int)
    requires 0 <= k < |candidates| && FindIgnoringCase(cols, candidates[k]).Some?
    requires forall j :: 0 <= j < k ==> FindIgnoringCase(cols, candidates[j]).None?
    ensures MatchCandidates(cols, candidates) == FindIgnoringCase(cols, candidates[k])
  {
    if k > 0 {
      var tail := candidates[1..];
      assert FindIgnoringCase(cols, candidates[0]).None?;
      assert tail[k - 1] == candidates[k];
      assert forall j :: 0 <= j < k - 1 ==> tail[j] == candidates[j + 1];
      MatchCandidatesFirst(cols, tail, k - 1);
    }
  }

  // ---------------------------------------------------------------------
  // The memoized column name

  /** The `localStorage` key of the remembered column name. It carries the
      cache prefix. */
  const ColumnCacheKey: string := "envirosync_device_column"

  /** The cache's `clearAll` also forgets the remembered column name (the
      in-memory copy stays). */
  lemma ColumnCacheClearedByClearAll(items: map<string, Stored>)
    ensures ColumnCacheKey !in WithoutPrefixed(items, CachePrefix)
  {
    assert ColumnCacheKey == CachePrefix + "device_column";
    PrefixedStartsWith(CachePrefix, "device_column");
  }

  /** `getDeviceColumnName` with its two memories: the page-global
      `window.__envirosync_device_column` and `localStorage`. */
  class DeviceColumnResolver {
    var memo: Option<string>
    const storage: LocalStorage

    constructor (storage: LocalStorage)
      ensures memo == None && this.storage == storage
    {
      memo := None;
      this.storage := storage;
    }

    /** The name returned without probing: a non-empty in-memory value,
        else the non-empty text stored under the cache key. */
    function Remembered(): (r: Option<string>)
      reads this, storage
      ensures r.Some? ==> r.value != ""
      ensures memo.Some? && memo.value != "" ==> r == memo
    {
      if memo.Some? && memo.value != "" then memo
      else
        var stored := storage.GetItem(ColumnCacheKey);
        if stored.Some? && Serialize(stored.value) != "" then Some(Serialize(stored.value)) else None
    }

    /** `getDeviceColumnName()`, where `probe` is what `probeColumns` would
        return. A remembered name is returned as it is; otherwise the probe
        decides, a found column is remembered in both places and the last
        resort "device_id" in memory only. Either way the next call returns
        the same name without probing. */
    method GetDeviceColumnName(probe: Option<seq<string>>) returns (col: string)
      modifies this, storage
      ensures old(Remembered()).Some? ==>
                col == old(Remembered()).value && storage.items == old(storage.items)
      ensures old(Remembered()).None? ==>
                && col == DeviceColumn(probe)
                && storage.items == if ChooseColumn(probe).Some? then old(storage.items)[ColumnCacheKey := Text(col)]
                                    else old(storage.items)
      ensures memo == Some(col) && Remembered() == Some(col)
    {
      if memo.Some? && memo.value != "" {
        return memo.value;
      }
      var stored := storage.GetItem(ColumnCacheKey);
      if stored.Some? && Serialize(stored.value) != "" {
        col := Serialize(stored.value);
        memo := Some(col);
        return;
      }
      var found := SelectColumn(probe);
      if found.Some? {
        col := found.value;
        memo := Some(col);
        storage.SetItem(ColumnCacheKey, Text(col));
        return;
      }
      col := FallbackColumn;
      memo := Some(col);
    }
  }
}
