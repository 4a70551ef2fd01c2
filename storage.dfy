/** The `mappings` table: token (unique primary key) to Fernet ciphertext.

    The SQLite connection, schema creation and commits are not modelled; the
    table is a sequence of rows in the order they were inserted, which is the
    order the row scans of `get_mapping_fuzzy` visit them. */
module Storage {
  import opened Wrappers
  import opened Octets

  /** One row of `mappings(token TEXT PRIMARY KEY, ciphertext BLOB NOT NULL)`. */
  datatype Row = Row(token: string, ciphertext: Bytes)

  /** The table as a key-value map. */
  type Table = map<string, Bytes>

  /** `token` is a primary key: no two rows share one. */
  ghost predicate UniqueTokens(rows: seq<Row>) {
    forall i, j :: 0 <= i < j < |rows| ==> rows[i].token != rows[j].token
  }

  /** The key-value view of a row sequence. */
  function TableOf(rows: seq<Row>): (t: Table)
    ensures forall tok :: tok in t <==> exists i :: 0 <= i < |rows| && rows[i].token == tok
    decreases |rows|
  {
    if rows == [] then map[]
    else
      var last := rows[|rows| - 1];
      var t := TableOf(rows[..|rows| - 1]);
      assert forall i :: 0 <= i < |rows| - 1 ==> rows[..|rows| - 1][i] == rows[i];
      t[last.token := last.ciphertext]
  }

  lemma {:induction false} TableOfAt(rows: seq<Row>, i: int)
    requires UniqueTokens(rows) && 0 <= i < |rows|
    ensures rows[i].token in TableOf(rows) && TableOf(rows)[rows[i].token] == rows[i].ciphertext
    decreases |rows|
  {
    if i < |rows| - 1 {
      var front := rows[..|rows| - 1];
      assert front[i] == rows[i];
      TableOfAt(front, i);
    }
  }

  /** `INSERT OR IGNORE`: insert the pair if the token is absent; otherwise
      keep the row that is there (first write wins). */
  function InsertIfAbsent(t: Table, token: string, ciphertext: Bytes): (r: Table)
    ensures r.Keys == t.Keys + {token}
    ensures r[token] == if token in t then t[token] else ciphertext
    ensures forall k :: k in t ==> r[k] == t[k]
  {
    if token in t then t else t[token := ciphertext]
  }

  /** Saving the same pair twice leaves the table as saving it once; and a
      second save under a present token never displaces the first. */
  lemma InsertIfAbsentIdempotent(t: Table, token: string, c1: Bytes, c2: Bytes)
    ensures InsertIfAbsent(InsertIfAbsent(t, token, c1), token, c2) == InsertIfAbsent(t, token, c1)
  {
  }

  /** Python's `str.lower()` restricted to ASCII: `A`-`Z` become `a`-`z`. */
  function AsciiLower(s: string): (r: string)
    ensures |r| == |s|
  {
    seq(|s|, i requires 0 <= i < |s| => if 'A' <= s[i] <= 'Z' then (s[i] as int + 32) as char else s[i])
  }

  /** Case-insensitive (ASCII) equality of two tokens, as `get_mapping_fuzzy`
      tests it: `cand_token.lower() == token.lower()`. */
  predicate SameIgnoringCase(a: string, b: string) {
    AsciiLower(a) == AsciiLower(b)
  }

  /** `x` and `y` are the same character, or the upper- and lower-case forms
      of one ASCII letter. */
  predicate CaseVariants(x: char, y: char) {
    || x == y
    || ('A' <= x <= 'Z' && y as int == x as int + 32)
    || ('A' <= y <= 'Z' && x as int == y as int + 32)
  }

  /** Two strings are equal ignoring case exactly when they have the same
      length and agree, position by position, up to the case of an ASCII letter. */
  lemma SameIgnoringCaseIff(a: string, b: string)
    ensures SameIgnoringCase(a, b) <==> |a| == |b| && forall i :: 0 <= i < |a| ==> CaseVariants(a[i], b[i])
  {
    var la, lb := AsciiLower(a), AsciiLower(b);
    if |a| == |b| {
      forall i | 0 <= i < |a|
        ensures la[i] == lb[i] <==> CaseVariants(a[i], b[i])
      {
      }
      if forall i :: 0 <= i < |a| ==> CaseVariants(a[i], b[i]) {
        assert la == lb;
      }
    }
  }

  class MappingStore {
    var rows: seq<Row>

    ghost predicate Valid()
      reads this
    {
      UniqueTokens(rows)
    }

    /** The key-value content of the store. */
    function Table(): Table
      reads this
    {
      TableOf(rows)
    }

    /** An empty `mappings` table, as `CREATE TABLE IF NOT EXISTS` leaves a new database. */
    constructor ()
      ensures Valid() && rows == [] && Table() == map[]
    {
      rows := [];
    }

    /** `save_mapping`: `INSERT OR IGNORE`; a present token is a silent no-op. */
    method SaveMapping(token: string, ciphertext: Bytes)
      requires Valid()
      modifies this
      ensures Valid()
      ensures Table() == InsertIfAbsent(old(Table()), token, ciphertext)
      ensures rows == if token in old(Table()) then old(rows) else old(rows) + [Row(token, ciphertext)]
    {
      if token !in Table() {
        rows := rows + [Row(token, ciphertext)];
        assert rows[..|rows| - 1] == old(rows);
      }
    }

    /** `get_mapping`: `SELECT ciphertext FROM mappings WHERE token = ?`. */
    method GetMapping(token: string) returns (r: Option<Bytes>)
      requires Valid()
      ensures r.None? <==> token !in Table()
      ensures r.Some? ==> token in Table() && r.value == Table()[token]
    {
      var i := 0;
      while i < |rows|
        invariant 0 <= i <= |rows|
        invariant forall j :: 0 <= j < i ==> rows[j].token != token
      {
        if rows[i].token == token {
          TableOfAt(rows, i);
          return Some(rows[i].ciphertext);
        }
        i := i + 1;
      }
      return None;
    }

    /** `get_mapping_fuzzy`: the exact match if its blob is truthy (non-empty);
        otherwise the first row, in scan order, whose token equals the query
        ignoring ASCII case; `None` if there is no such row. */
    method GetMappingFuzzy(token: string) returns (r: Option<Bytes>)
      requires Valid()
      ensures token in Table() && |Table()[token]| > 0 ==> r == Some(Table()[token])
      ensures r.Some? ==> exists i :: 0 <= i < |rows| && SameIgnoringCase(rows[i].token, token) && rows[i].ciphertext == r.value
      ensures r.None? <==> forall i :: 0 <= i < |rows| ==> !SameIgnoringCase(rows[i].token, token)
      ensures r.Some? && !(token in Table() && |Table()[token]| > 0) ==>
        exists i :: 0 <= i < |rows| && SameIgnoringCase(rows[i].token, token) && rows[i].ciphertext == r.value &&
                    forall j :: 0 <= j < i ==> !SameIgnoringCase(rows[j].token, token)
    {
      var exact := GetMapping(token);
      if exact.Some? && |exact.value| > 0 {
        ghost var k :| 0 <= k < |rows| && rows[k].token == token;
        TableOfAt(rows, k);
        return exact;
      }
      var target := AsciiLower(token);
      var i := 0;
      while i < |rows|
        invariant 0 <= i <= |rows|
        invariant forall j :: 0 <= j < i ==> !SameIgnoringCase(rows[j].token, token)
      {
        if AsciiLower(rows[i].token) == target {
          return Some(rows[i].ciphertext);
        }
        i := i + 1;
      }
      return None;
    }
  }
}
