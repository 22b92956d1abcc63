/** The INSERT statement that the rule engine makes of a message: a growable string
    buffer, escaping of values, and the assembly of aligned column and value lists.
    Strings are C strings: no NUL inside. */
module SqlClause {
  import opened Wrappers

  // The growable buffer

  class SBuf {
    var buf: array<char>
    var len: nat
    var cap: nat
    ghost const initialCap: nat
    ghost var copied: nat

    /** Room for the text and its terminator; all copying done by growth so far is
        paid for by the capacity gained. */
    ghost predicate Valid()
      reads this, buf
    {
      && len + 1 <= cap == buf.Length
      && buf[len] == '\0'
      && copied <= cap - initialCap
    }

    ghost function Text(): string
      requires Valid()
      reads this, buf
    {
      buf[..len]
    }

    /** sbuf_init */
    constructor (capacity: nat)
      ensures Valid() && fresh(buf) && Text() == ""
      ensures cap == (if capacity != 0 then capacity else 256) && initialCap == cap && copied == 0
    {
      var c := if capacity != 0 then capacity else 256;
      cap := c;
      initialCap := c;
      len := 0;
      copied := 0;
      var b := new char[c];
      b[0] := '\0';
      buf := b;
    }

    /** sbuf_ensure */
    method Ensure(extra: nat)
      requires Valid()
      modifies this
      ensures Valid() && (buf == old(buf) || fresh(buf))
      ensures Text() == old(Text()) && len == old(len)
      ensures len + extra + 1 <= cap
      ensures old(len) + extra + 1 <= old(cap) ==> cap == old(cap)
    {
      if len + extra + 1 <= cap {
        return;
      }
      var newcap := cap * 2;
      while newcap < len + extra + 1
        invariant newcap >= 2 * cap
      {
        newcap := newcap * 2;
      }
      var nbuf := new char[newcap];
      forall i | 0 <= i < len + 1 {
        nbuf[i] := buf[i];
      }
      assert nbuf[..len] == buf[..len];
      copied := copied + len + 1;
      buf := nbuf;
      cap := newcap;
    }

    /** sbuf_append */
    method Append(s: string)
      requires Valid()
      modifies this, buf
      ensures Valid() && (buf == old(buf) || fresh(buf))
      ensures Text() == old(Text()) + s
    {
      var n := |s|;
      Ensure(n);
      ghost var before := buf[..len];
      for i := 0 to n
        invariant cap == buf.Length && len + n + 1 <= cap && copied <= cap - initialCap
        invariant buf == old(buf) || fresh(buf)
        invariant buf[..len] == before
        invariant forall j :: 0 <= j < i ==> buf[len + j] == s[j]
      {
        buf[len + i] := s[i];
      }
      buf[len + n] := '\0';
      assert buf[..len] == before;
      assert buf[..len + n] == before + s;
      len := len + n;
    }

    /** sbuf_appendf of what the format prints; a text that the buffer on the stack cuts
        off is printed again into one that is large enough. */
    method AppendF(printed: string)
      requires Valid()
      modifies this, buf
      ensures Valid() && (buf == old(buf) || fresh(buf))
      ensures Text() == old(Text()) + printed
    {
      var n := |printed|;
      var tmp := Fitted(printed, 512);
      if n <= 0 {
        return;
      }
      if n >= 512 {
        var dyn := Fitted(printed, n + 1);
        Append(dyn);
      } else {
        Append(tmp);
      }
    }

    /** The text with the last comma replaced by a closing parenthesis, when there is one. */
    method CloseAtLastComma() returns (found: bool)
      requires Valid()
      modifies buf
      ensures Valid()
      ensures found <==> LastComma(old(Text())).Some?
      ensures found ==> Text() == old(Text())[LastComma(old(Text())).value := ')']
      ensures !found ==> Text() == old(Text())
    {
      var p := LastComma(buf[..len]);
      if p.None? {
        return false;
      }
      buf[p.value] := ')';
      found := true;
    }
  }

  /** What vsnprintf leaves in a buffer of the given size. */
  function Fitted(printed: string, size: nat): string
    requires size > 0
  {
    if |printed| < size then printed else printed[..size - 1]
  }

  /** strrchr(s, ',') */
  function LastComma(s: string): (r: Option<nat>)
    ensures r.None? ==> ',' !in s
    ensures r.Some? ==> r.value < |s| && s[r.value] == ',' && forall j :: r.value < j < |s| ==> s[j] != ','
  {
    if s == "" then None
    else if s[|s| - 1] == ',' then Some(|s| - 1)
    else
      assert s == s[..|s| - 1] + [s[|s| - 1]];
      LastComma(s[..|s| - 1])
  }

  // Escaping

  predicate Special(c: char) {
    c == '\'' || c == '\\'
  }

  function EscapedChar(c: char): (r: string)
    ensures 1 <= |r| <= 2
  {
    if Special(c) then ['\\', c] else [c]
  }

  function Escaped(s: string): (r: string)
    ensures |r| <= 2 * |s|
  {
    if s == "" then "" else EscapedChar(s[0]) + Escaped(s[1..])
  }

  /** Reads a literal of a backslash dialect up to its closing quote, undoing
      backslashes: the value and what follows the quote. */
  function ReadLiteral(t: string): Option<(string, string)> {
    if t == "" then None
    else if t[0] == '\'' then Some(("", t[1..]))
    else if t[0] == '\\' then
      if |t| == 1 then None else Put(t[1], ReadLiteral(t[2..]))
    else Put(t[0], ReadLiteral(t[1..]))
  }

  /** Reads a literal as SQLite does: a quote is written twice, a backslash is a
      character like any other. */
  function ReadSqlite(t: string): (r: Option<(string, string)>)
    ensures r.Some? ==> |r.value.1| < |t|
  {
    if t == "" then None
    else if t[0] != '\'' then Put(t[0], ReadSqlite(t[1..]))
    else if |t| > 1 && t[1] == '\'' then Put('\'', ReadSqlite(t[2..]))
    else Some(("", t[1..]))
  }

  function Put(c: char, r: Option<(string, string)>): Option<(string, string)> {
    if r.None? then None else Some(([c] + r.value.0, r.value.1))
  }

  lemma ReadOneChar(c: char, tail: string)
    ensures ReadLiteral(EscapedChar(c) + tail) == Put(c, ReadLiteral(tail))
  {
    var t := EscapedChar(c) + tail;
    assert t[|EscapedChar(c)|..] == tail;
  }

  /** In a backslash dialect an escaped value in quotes is read back whole, and the
      reading stops at its own closing quote, whatever the value and what follows. */
  lemma {:induction false} EscapedReadsBack(s: string, rest: string)
    ensures ReadLiteral(Escaped(s) + (['\''] + rest)) == Some((s, rest))
  {
    var close := ['\''] + rest;
    if s == "" {
      assert Escaped(s) + close == close && close[1..] == rest;
    } else {
      EscapedReadsBack(s[1..], rest);
      ReadOneChar(s[0], Escaped(s[1..]) + close);
      EscapedHead(s, close);
      HeadAndTail(s);
    }
  }

  lemma HeadAndTail(s: string)
    requires s != ""
    ensures [s[0]] + s[1..] == s
  {
  }

  function PutAll(cs: string, r: Option<(string, string)>): Option<(string, string)> {
    if r.None? then None else Some((cs + r.value.0, r.value.1))
  }

  lemma ReadPlainChar(c: char, tail: string)
    requires c != '\''
    ensures ReadSqlite([c] + tail) == PutAll([c], ReadSqlite(tail))
  {
    assert ([c] + tail)[1..] == tail;
  }

  lemma ReadEscapedChar(c: char, tail: string)
    requires c != '\''
    ensures ReadSqlite(EscapedChar(c) + tail) == PutAll(EscapedChar(c), ReadSqlite(tail))
  {
    ReadPlainChar(c, tail);
    if c == '\\' {
      ReadPlainChar(c, [c] + tail);
      assert EscapedChar(c) + tail == [c] + ([c] + tail);
      var r := ReadSqlite(tail);
      assert r.Some? ==> [c] + ([c] + r.value.0) == EscapedChar(c) + r.value.0;
    }
  }

  /** An escaped quote is a backslash, and a quote that ends the literal unless another
      quote follows. */
  lemma ReadEscapedQuote(tail: string)
    requires tail != ""
    ensures ReadSqlite(EscapedChar('\'') + tail) ==
      if tail[0] == '\'' then PutAll(['\\'], Put('\'', ReadSqlite(tail[1..]))) else Some((['\\'], tail))
  {
    var quoted := ['\''] + tail;
    assert EscapedChar('\'') + tail == ['\\'] + quoted;
    ReadPlainChar('\\', quoted);
    assert quoted[1..] == tail && quoted[2..] == tail[1..];
    assert ['\\'] + "" == ['\\'];
  }

  lemma EscapedStart(s: string)
    requires s != ""
    ensures Escaped(s) != "" && Escaped(s)[0] != '\''
  {
  }

  lemma EscapedHead(s: string, close: string)
    requires s != ""
    ensures Escaped(s) + close == EscapedChar(s[0]) + (Escaped(s[1..]) + close)
  {
  }

  /** SQLite reads the escaped text itself when the value holds no quote. */
  lemma {:induction false} ReadWithoutQuote(s: string, rest: string)
    requires '\'' !in s && (rest == "" || rest[0] != '\'')
    ensures ReadSqlite(Escaped(s) + (['\''] + rest)) == Some((Escaped(s), rest))
  {
    var close := ['\''] + rest;
    if s == "" {
      assert Escaped(s) + close == close && close[1..] == rest;
    } else {
      ReadWithoutQuote(s[1..], rest);
      ReadEscapedChar(s[0], Escaped(s[1..]) + close);
      EscapedHead(s, close);
    }
  }

  /** A quote in the value ends the literal too early, or joins it with what follows. */
  lemma {:induction false} ReadWithQuote(s: string, rest: string)
    requires '\'' in s
    ensures var r := ReadSqlite(Escaped(s) + (['\''] + rest)); r.None? || |r.value.1| != |rest|
  {
    var close := ['\''] + rest;
    var tail := Escaped(s[1..]) + close;
    EscapedHead(s, close);
    if s[0] != '\'' {
      ReadWithQuote(s[1..], rest);
      ReadEscapedChar(s[0], tail);
    } else {
      ReadEscapedQuote(tail);
      if s[1..] == "" {
        assert tail == close && tail[1..] == rest;
      } else {
        EscapedStart(s[1..]);
      }
    }
  }

  /** A quote that is not the last character of a value ends the literal there: the rest
      of the value becomes part of the statement. */
  lemma {:induction false} QuoteEndsLiteral(front: string, behind: string, close: string)
    requires '\'' !in front && behind != ""
    ensures ReadSqlite(Escaped(front + (['\''] + behind)) + close) ==
      Some((Escaped(front) + ['\\'], Escaped(behind) + close))
  {
    var s := front + (['\''] + behind);
    EscapedHead(s, close);
    if front == "" {
      assert s == ['\''] + behind && s[1..] == behind;
      EscapedStart(behind);
      ReadEscapedQuote(Escaped(behind) + close);
      assert Escaped(front) + ['\\'] == ['\\'];
    } else {
      assert s[1..] == front[1..] + (['\''] + behind);
      QuoteEndsLiteral(front[1..], behind, close);
      ReadEscapedChar(front[0], Escaped(s[1..]) + close);
      assert EscapedChar(front[0]) + (Escaped(front[1..]) + ['\\']) == Escaped(front) + ['\\'];
    }
  }

  lemma {:induction false} EscapedLonger(s: string)
    ensures |Escaped(s)| >= |s|
    ensures |Escaped(s)| == |s| <==> '\'' !in s && '\\' !in s
    ensures |Escaped(s)| == |s| ==> Escaped(s) == s
  {
    if s != "" {
      EscapedLonger(s[1..]);
      assert s == [s[0]] + s[1..];
    }
  }

  /** The database that the statement goes to reads a value back exactly when it holds
      neither a quote nor a backslash. In the statement a quote never follows a value. */
  lemma SqliteReadsBackIff(s: string, rest: string)
    requires rest == "" || rest[0] != '\''
    ensures ReadSqlite(Escaped(s) + (['\''] + rest)) == Some((s, rest)) <==> '\'' !in s && '\\' !in s
  {
    EscapedLonger(s);
    if '\'' in s {
      ReadWithQuote(s, rest);
    } else {
      ReadWithoutQuote(s, rest);
    }
  }

  /** sql_escape: the result fits the buffer of twice the length plus one. */
  method SqlEscape(s: string) returns (out: array<char>, n: nat)
    ensures fresh(out) && out.Length == 2 * |s| + 1
    ensures n == |Escaped(s)| < out.Length && out[..n] == Escaped(s) && out[n] == '\0'
  {
    out := new char[2 * |s| + 1];
    n := 0;
    ghost var done := "";
    assert s[0..] == s;
    for i := 0 to |s|
      invariant n == |done| <= 2 * i && out[..n] == done
      invariant done + Escaped(s[i..]) == Escaped(s)
    {
      assert s[i..][0] == s[i] && s[i..][1..] == s[i + 1..];
      assert (done + EscapedChar(s[i])) + Escaped(s[i + 1..]) == done + (EscapedChar(s[i]) + Escaped(s[i + 1..]));
      n := PutChar(out, n, s[i], done);
      done := done + EscapedChar(s[i]);
    }
    assert done + "" == done;
    out[n] := '\0';
    assert out[..n] == done;
  }

  method PutChar(out: array<char>, at: nat, c: char, ghost done: string) returns (n: nat)
    requires at + 2 <= out.Length && out[..at] == done
    modifies out
    ensures n == at + |EscapedChar(c)| && out[..n] == done + EscapedChar(c)
  {
    n := at;
    if c == '\'' || c == '\\' {
      out[n] := '\\';
      n := n + 1;
    }
    out[n] := c;
    n := n + 1;
  }

  // Cells of the statement

  datatype Field = Qos | Id | TopicName | Clientid | Username | Password | Timestamp | PayloadAll | PayloadField

  /** The fields in the order of the loop over them. */
  const FIELDS: seq<Field> := [Qos, Id, TopicName, Clientid, Username, Password, Timestamp, PayloadAll, PayloadField]

  /** A JSON value picked out of the payload. */
  datatype Picked = Number(n: int) | Text(s: string) | Object(json: string) | Missing

  datatype Item = Item(stored: bool, name: Option<string>, value: Picked)

  datatype Rule = Rule(table: string, wanted: set<Field>, names: map<Field, string>, items: seq<Item>)

  datatype Message = Message(
    qos: nat, id: nat, topic: string, clientid: string, username: Option<string>, password: Option<string>,
    time: nat, payload: string)

  datatype Cell = Cell(column: string, value: string)

  function Digit(d: int): char
    requires 0 <= d < 10
  {
    ('0' as int + d) as char
  }

  /** %d, %lu and %ld */
  function Decimal(n: int): string
    decreases if n < 0 then 1 - n else n
  {
    if n < 0 then "-" + Decimal(-n)
    else if n < 10 then [Digit(n)]
    else Decimal(n / 10) + [Digit(n % 10)]
  }

  function Quoted(s: string): string {
    "'" + Escaped(s) + "'"
  }

  function QuotedOrNull(s: Option<string>): string {
    if s.Some? then Quoted(s.value) else "NULL"
  }

  function DefaultName(f: Field): string {
    match f
    case Qos => "Qos"
    case Id => "Id"
    case TopicName => "Topic"
    case Clientid => "Clientid"
    case Username => "Username"
    case Password => "Password"
    case Timestamp => "Timestamp"
    case PayloadAll => "Payload"
    case PayloadField => ""
  }

  function ColumnName(r: Rule, f: Field): string {
    if f in r.names then r.names[f] else DefaultName(f)
  }

  function FieldValue(f: Field, m: Message): string {
    match f
    case Qos => Decimal(m.qos)
    case Id => Decimal(m.id)
    case TopicName => Quoted(m.topic)
    case Clientid => Quoted(m.clientid)
    case Username => QuotedOrNull(m.username)
    case Password => QuotedOrNull(m.password)
    case Timestamp => Decimal(m.time)
    case PayloadAll => Quoted(m.payload)
    case PayloadField => ""
  }

  function PickedValue(v: Picked): string {
    match v
    case Number(n) => Decimal(n)
    case Text(s) => Quoted(s)
    case Object(json) => Quoted(json)
    case Missing => "NULL"
  }

  // What a cell holds

  /** The number that a decimal text stands for. */
  function ParsedDecimal(s: string): int {
    if s == "" then 0
    else if s[0] == '-' then -ParsedDecimal(s[1..])
    else 10 * ParsedDecimal(s[..|s| - 1]) + (s[|s| - 1] as int - '0' as int)
  }

  predicate IsDigits(s: string) {
    s != "" && forall i :: 0 <= i < |s| ==> '0' <= s[i] <= '9'
  }

  lemma {:induction false} DecimalOfNat(n: nat)
    ensures IsDigits(Decimal(n)) && ParsedDecimal(Decimal(n)) == n
    decreases n
  {
    if n >= 10 {
      DecimalOfNat(n / 10);
      var s := Decimal(n);
      assert s[..|s| - 1] == Decimal(n / 10);
    }
  }

  /** Numbers are read back. */
  lemma DecimalReadsBack(n: int)
    ensures ParsedDecimal(Decimal(n)) == n
  {
    if n < 0 {
      DecimalOfNat(-n);
      assert Decimal(n)[1..] == Decimal(-n);
    } else {
      DecimalOfNat(n);
    }
  }

  /** A text in quotes that a backslash dialect reads as the value. */
  predicate Reads(text: string, value: string) {
    text != "" && text[0] == '\'' && ReadLiteral(text[1..]) == Some((value, ""))
  }

  lemma QuotedReads(s: string)
    ensures Reads(Quoted(s), s)
  {
    EscapedReadsBack(s, "");
    assert Quoted(s)[1..] == Escaped(s) + (['\''] + "");
  }

  /** Each field of the message is found in its own cell: numbers, texts, and NULL for a
      user name or password that is absent. */
  lemma FieldsReadBack(m: Message)
    ensures ParsedDecimal(FieldValue(Qos, m)) == m.qos && ParsedDecimal(FieldValue(Id, m)) == m.id
    ensures ParsedDecimal(FieldValue(Timestamp, m)) == m.time
    ensures Reads(FieldValue(TopicName, m), m.topic) && Reads(FieldValue(Clientid, m), m.clientid)
    ensures Reads(FieldValue(PayloadAll, m), m.payload)
    ensures if m.username.Some? then Reads(FieldValue(Username, m), m.username.value)
      else FieldValue(Username, m) == "NULL"
    ensures if m.password.Some? then Reads(FieldValue(Password, m), m.password.value)
      else FieldValue(Password, m) == "NULL"
  {
    DecimalReadsBack(m.qos);
    DecimalReadsBack(m.id);
    DecimalReadsBack(m.time);
    QuotedReads(m.topic);
    QuotedReads(m.clientid);
    QuotedReads(m.payload);
    if m.username.Some? {
      QuotedReads(m.username.value);
    }
    if m.password.Some? {
      QuotedReads(m.password.value);
    }
  }

  function ItemCells(items: seq<Item>): seq<Cell> {
    if items == [] then []
    else
      var k := |items| - 1;
      ItemCells(items[..k]) +
      (if items[k].stored && items[k].name.Some? then [Cell(items[k].name.value, PickedValue(items[k].value))] else [])
  }

  function FieldCells(r: Rule, m: Message, f: Field): seq<Cell> {
    if f !in r.wanted then []
    else if f == PayloadField then ItemCells(r.items)
    else [Cell(ColumnName(r, f), FieldValue(f, m))]
  }

  /** The cells of the statement: the fields wanted, in order, each with its value. */
  function Cells(r: Rule, m: Message, fs: seq<Field>): seq<Cell> {
    if fs == [] then [] else Cells(r, m, fs[..|fs| - 1]) + FieldCells(r, m, fs[|fs| - 1])
  }

  // Printing

  function Columns(cs: seq<Cell>): (s: seq<string>)
    ensures |s| == |cs| && forall i :: 0 <= i < |cs| ==> s[i] == cs[i].column
  {
    seq(|cs|, i requires 0 <= i < |cs| => cs[i].column)
  }

  function Values(cs: seq<Cell>): (s: seq<string>)
    ensures |s| == |cs| && forall i :: 0 <= i < |cs| ==> s[i] == cs[i].value
  {
    seq(|cs|, i requires 0 <= i < |cs| => cs[i].value)
  }

  /** The fields that are not picked out of the payload, and their columns. */
  const WHOLE: set<Field> := {Qos, Id, TopicName, Clientid, Username, Password, Timestamp, PayloadAll}
  const NAMES: seq<string> := ["Qos", "Id", "Topic", "Clientid", "Username", "Password", "Timestamp", "Payload"]

  lemma WholeField(r: Rule, m: Message, i: nat)
    requires r.wanted == WHOLE && r.names == map[] && i < 8
    ensures FieldCells(r, m, FIELDS[i]) == [Cell(NAMES[i], FieldValue(FIELDS[i], m))]
  {
  }

  /** A rule that wants these and names none of them has a column for each, in order, with
      the value of its field. */
  lemma {:induction false} WholeCells(r: Rule, m: Message, k: nat)
    requires r.wanted == WHOLE && r.names == map[] && k <= 8
    ensures var cs := Cells(r, m, FIELDS[..k]);
      |cs| == k && forall i :: 0 <= i < k ==> cs[i] == Cell(NAMES[i], FieldValue(FIELDS[i], m))
  {
    if k > 0 {
      WholeCells(r, m, k - 1);
      assert FIELDS[..k][..k - 1] == FIELDS[..k - 1];
      WholeField(r, m, k - 1);
    }
  }

  /** A field that is not wanted has no cell; one with a name of its own has that column. */
  lemma FieldIsOptional(r: Rule, m: Message, f: Field)
    requires f != PayloadField
    ensures f !in r.wanted ==> FieldCells(r, m, f) == []
    ensures f in r.wanted && f in r.names ==> FieldCells(r, m, f) == [Cell(r.names[f], FieldValue(f, m))]
  {
  }

  /** Of the values picked out of the payload those that are stored and named have a cell,
      in order: a number, a text or an object as its text, and NULL for anything else. */
  lemma {:induction false} ItemsReadBack(items: seq<Item>, name: string, n: int, s: string)
    ensures ItemCells(items + [Item(false, Some(name), Text(s))]) == ItemCells(items)
    ensures ItemCells(items + [Item(true, None, Text(s))]) == ItemCells(items)
    ensures ItemCells(items + [Item(true, Some(name), Missing)]) == ItemCells(items) + [Cell(name, "NULL")]
    ensures exists t ::
      && ParsedDecimal(t) == n
      && ItemCells(items + [Item(true, Some(name), Number(n))]) == ItemCells(items) + [Cell(name, t)]
    ensures exists t ::
      && Reads(t, s)
      && ItemCells(items + [Item(true, Some(name), Text(s))]) == ItemCells(items) + [Cell(name, t)]
      && ItemCells(items + [Item(true, Some(name), Object(s))]) == ItemCells(items) + [Cell(name, t)]
  {
    ItemCellsSnoc(items, Item(false, Some(name), Text(s)));
    ItemCellsSnoc(items, Item(true, None, Text(s)));
    ItemCellsSnoc(items, Item(true, Some(name), Missing));
    ItemCellsSnoc(items, Item(true, Some(name), Number(n)));
    ItemCellsSnoc(items, Item(true, Some(name), Text(s)));
    ItemCellsSnoc(items, Item(true, Some(name), Object(s)));
    DecimalReadsBack(n);
    QuotedReads(s);
    assert ItemCells(items) + [] == ItemCells(items);
  }

  lemma ItemCellsSnoc(items: seq<Item>, x: Item)
    ensures ItemCells(items + [x]) == ItemCells(items) +
      (if x.stored && x.name.Some? then [Cell(x.name.value, PickedValue(x.value))] else [])
  {
    assert (items + [x])[..|items|] == items;
  }

  /** Every text followed by a separator. */
  function Separated(xs: seq<string>): string {
    if xs == [] then "" else Separated(xs[..|xs| - 1]) + xs[|xs| - 1] + ", "
  }

  /** Separators between the texts. */
  function Joined(xs: seq<string>): string {
    if xs == [] then ""
    else if |xs| == 1 then xs[0]
    else Joined(xs[..|xs| - 1]) + ", " + xs[|xs| - 1]
  }

  /** The statement for a non-empty list of cells. */
  function Insert(table: string, cs: seq<Cell>): string {
    "INSERT INTO " + (table + " (" + Joined(Columns(cs)) + ") ") + ("VALUES (" + Joined(Values(cs)) + ") ") + ";"
  }

  /** What a statement looks like. */
  lemma InsertText(t: string, a: Cell, b: Cell)
    ensures Insert(t, [a, b]) ==
      "INSERT INTO " + t + " (" + a.column + ", " + b.column + ") VALUES (" + a.value + ", " + b.value + ") ;"
  {
    assert Columns([a, b]) == [a.column, b.column] && Values([a, b]) == [a.value, b.value];
    JoinedTwo(a.column, b.column);
    JoinedTwo(a.value, b.value);
  }

  lemma JoinedTwo(a: string, b: string)
    ensures Joined([a, b]) == a + ", " + b
  {
    assert [a, b][..1] == [a];
  }

  lemma {:induction false} SeparatedIsJoined(xs: seq<string>)
    requires xs != []
    ensures Separated(xs) == Joined(xs) + ", "
  {
    if |xs| > 1 {
      SeparatedIsJoined(xs[..|xs| - 1]);
    } else {
      assert xs[..0] == [];
    }
  }

  /** Closing at the last comma replaces just the trailing separator. */
  lemma ClosingSeparated(front: string, xs: seq<string>)
    requires xs != []
    ensures LastComma(front + Separated(xs)).Some?
    ensures (front + Separated(xs))[LastComma(front + Separated(xs)).value := ')'] == front + Joined(xs) + ") "
  {
    var s := front + Separated(xs);
    SeparatedIsJoined(xs);
    assert s == front + Joined(xs) + ", ";
    var p := |s| - 2;
    assert s[p] == ',' && s[p + 1] == ' ';
    assert LastComma(s) == Some(p);
    assert s[p := ')'] == front + Joined(xs) + ") ";
  }

  lemma Reassociate(a: string, b: string, c: string, d: string)
    ensures (a + b) + c + d == a + (b + c + d)
  {
  }

  lemma {:induction false} SeparatedAppend(xs: seq<string>, ys: seq<string>)
    ensures Separated(xs + ys) == Separated(xs) + Separated(ys)
  {
    if ys == [] {
      assert xs + ys == xs;
    } else {
      var k := |ys| - 1;
      SeparatedAppend(xs, ys[..k]);
      assert (xs + ys)[..|xs| + k] == xs + ys[..k];
      Reassociate(Separated(xs), Separated(ys[..k]), ys[k], ", ");
    }
  }

  lemma ColumnsAppend(a: seq<Cell>, b: seq<Cell>)
    ensures Columns(a + b) == Columns(a) + Columns(b) && Values(a + b) == Values(a) + Values(b)
  {
  }

  /** What is printed for the cells before and for some more. */
  lemma PrintedAppend(front: string, a: seq<Cell>, b: seq<Cell>)
    ensures (front + Separated(Columns(a))) + Separated(Columns(b)) == front + Separated(Columns(a + b))
    ensures (front + Separated(Values(a))) + Separated(Values(b)) == front + Separated(Values(a + b))
  {
    ColumnsAppend(a, b);
    SeparatedAppend(Columns(a), Columns(b));
    SeparatedAppend(Values(a), Values(b));
  }

  lemma PrintedOne(c: Cell)
    ensures Separated(Columns([c])) == c.column + ", " && Separated(Values([c])) == c.value + ", "
  {
    assert Columns([c]) == [c.column] && Values([c]) == [c.value];
    assert [c.column][..0] == [] && [c.value][..0] == [];
  }

  // The code

  /** A value in quotes, as it is printed from the buffer of sql_escape. */
  method PrintQuoted(s: string) returns (text: string)
    ensures text == Quoted(s)
  {
    var esc, n := SqlEscape(s);
    text := "'" + esc[..n] + "'";
  }

  method PrintQuotedOrNull(s: Option<string>) returns (text: string)
    ensures text == QuotedOrNull(s)
  {
    if s.Some? {
      text := PrintQuoted(s.value);
    } else {
      text := "NULL";
    }
  }

  /** What is printed for one field of the message. */
  method PrintField(f: Field, m: Message) returns (text: string)
    ensures text == FieldValue(f, m)
  {
    match f {
      case Qos => text := Decimal(m.qos);
      case Id => text := Decimal(m.id);
      case TopicName => text := PrintQuoted(m.topic);
      case Clientid => text := PrintQuoted(m.clientid);
      case Username => text := PrintQuotedOrNull(m.username);
      case Password => text := PrintQuotedOrNull(m.password);
      case Timestamp => text := Decimal(m.time);
      case PayloadAll => text := PrintQuoted(m.payload);
      case PayloadField => text := "";
    }
  }

  /** What is printed for a value picked out of the payload. */
  method PrintPicked(v: Picked) returns (text: string)
    ensures text == PickedValue(v)
  {
    match v {
      case Number(n) => text := Decimal(n);
      case Text(s) => text := PrintQuoted(s);
      case Object(json) => text := PrintQuoted(json);
      case Missing => text := "NULL";
    }
  }

  /** The buffers hold these texts, and share no storage. */
  ghost predicate Hold(key: SBuf, value: SBuf, keys: string, values: string)
    reads key, key.buf, value, value.buf
  {
    && key != value && key.buf != value.buf
    && key.Valid() && value.Valid()
    && key.Text() == keys && value.Text() == values
  }

  /** Appends to both buffers. */
  method AppendBoth(key: SBuf, value: SBuf, k: string, v: string, ghost keys: string, ghost values: string)
    requires Hold(key, value, keys, values)
    modifies key, key.buf, value, value.buf
    ensures Hold(key, value, keys + k, values + v)
    ensures key.buf == old(key.buf) || fresh(key.buf)
    ensures value.buf == old(value.buf) || fresh(value.buf)
  {
    key.AppendF(k);
    value.AppendF(v);
  }

  /** The two temporary buffers of compose_sql_clause_new for one field. */
  method FillCells(r: Rule, m: Message, f: Field) returns (key: SBuf, value: SBuf)
    requires f in r.wanted
    ensures fresh(key) && fresh(value) && fresh(key.buf) && fresh(value.buf)
    ensures Hold(key, value, Separated(Columns(FieldCells(r, m, f))), Separated(Values(FieldCells(r, m, f))))
  {
    key := new SBuf(512);
    value := new SBuf(256);
    if f != PayloadField {
      var text := PrintField(f, m);
      AppendCell(key, value, Cell(ColumnName(r, f), text), []);
      assert [] + FieldCells(r, m, f) == FieldCells(r, m, f);
    } else {
      FillItems(r.items, key, value);
    }
  }

  method AppendCell(key: SBuf, value: SBuf, c: Cell, ghost cells: seq<Cell>)
    requires Hold(key, value, Separated(Columns(cells)), Separated(Values(cells)))
    modifies key, key.buf, value, value.buf
    ensures Hold(key, value, Separated(Columns(cells + [c])), Separated(Values(cells + [c])))
    ensures key.buf == old(key.buf) || fresh(key.buf)
    ensures value.buf == old(value.buf) || fresh(value.buf)
  {
    PrintedSnoc(cells, c);
    AppendBoth(key, value, c.column + ", ", c.value + ", ", Separated(Columns(cells)), Separated(Values(cells)));
  }

  lemma PrintedSnoc(cells: seq<Cell>, c: Cell)
    ensures Separated(Columns(cells + [c])) == Separated(Columns(cells)) + (c.column + ", ")
    ensures Separated(Values(cells + [c])) == Separated(Values(cells)) + (c.value + ", ")
  {
    PrintedOne(c);
    ColumnsAppend(cells, [c]);
    SeparatedAppend(Columns(cells), Columns([c]));
    SeparatedAppend(Values(cells), Values([c]));
  }

  method FillItems(items: seq<Item>, key: SBuf, value: SBuf)
    requires Hold(key, value, "", "")
    modifies key, key.buf, value, value.buf
    ensures Hold(key, value, Separated(Columns(ItemCells(items))), Separated(Values(ItemCells(items))))
    ensures key.buf == old(key.buf) || fresh(key.buf)
    ensures value.buf == old(value.buf) || fresh(value.buf)
  {
    ghost var cells: seq<Cell> := [];
    for i := 0 to |items|
      invariant cells == ItemCells(items[..i])
      invariant Hold(key, value, Separated(Columns(cells)), Separated(Values(cells)))
      invariant key.buf == old(key.buf) || fresh(key.buf)
      invariant value.buf == old(value.buf) || fresh(value.buf)
    {
      var item := items[i];
      assert items[..i + 1][..i] == items[..i];
      if !item.stored || item.name.None? {
        assert cells + [] == cells;
        continue;
      }
      var text := PrintPicked(item.value);
      var c := Cell(item.name.value, text);
      AppendCell(key, value, c, cells);
      cells := cells + [c];
    }
    assert items[..|items|] == items;
  }

  /** compose_sql_clause_new, without the alterations of the table. */
  method ComposeClause(r: Rule, m: Message, f: Field, key: SBuf, value: SBuf, ghost keys: string, ghost values: string)
    requires Hold(key, value, keys, values)
    modifies key, key.buf, value, value.buf
    ensures var cells := FieldCells(r, m, f);
      Hold(key, value, keys + Separated(Columns(cells)), values + Separated(Values(cells)))
    ensures key.buf == old(key.buf) || fresh(key.buf)
    ensures value.buf == old(value.buf) || fresh(value.buf)
  {
    if f !in r.wanted {
      assert keys + "" == keys && values + "" == values;
      return;
    }
    var keySb, valueSb := FillCells(r, m, f);
    AppendBoth(key, value, keySb.buf[..keySb.len], valueSb.buf[..valueSb.len], keys, values);
  }

  /** The loop over the fields: the two lists, each cell followed by a separator. */
  method ComposeAll(r: Rule, m: Message, key: SBuf, value: SBuf)
    requires Hold(key, value, r.table + " (", "VALUES (")
    modifies key, key.buf, value, value.buf
    ensures Hold(key, value, r.table + " (" + Separated(Columns(Cells(r, m, FIELDS))),
                 "VALUES (" + Separated(Values(Cells(r, m, FIELDS))))
    ensures key.buf == old(key.buf) || fresh(key.buf)
    ensures value.buf == old(value.buf) || fresh(value.buf)
  {
    ghost var cells: seq<Cell> := [];
    ghost var k, v := r.table + " (", "VALUES (";
    assert k + Separated(Columns([])) == k && v + Separated(Values([])) == v;
    for j := 0 to |FIELDS|
      invariant cells == Cells(r, m, FIELDS[..j])
      invariant Hold(key, value, k + Separated(Columns(cells)), v + Separated(Values(cells)))
      invariant key.buf == old(key.buf) || fresh(key.buf)
      invariant value.buf == old(value.buf) || fresh(value.buf)
    {
      ComposeClause(r, m, FIELDS[j], key, value, k + Separated(Columns(cells)), v + Separated(Values(cells)));
      ghost var more := FieldCells(r, m, FIELDS[j]);
      PrintedAppend(k, cells, more);
      PrintedAppend(v, cells, more);
      assert FIELDS[..j + 1][..j] == FIELDS[..j];
      cells := cells + more;
    }
    assert FIELDS[..|FIELDS|] == FIELDS;
  }

  /** rule_engine_insert_sqlite, up to the execution of the statement: for the rule
      that it reads, the statement if there is at least one cell, and none otherwise. */
  method BuildInsert(rules: seq<Rule>, i: nat, m: Message) returns (sql: Option<string>)
    requires i < |rules|
    ensures var cells := Cells(rules[i], m, FIELDS);
      sql == if cells == [] then None else Some(Insert(rules[i].table, cells))
  {
    var r := rules[i];
    var key, value := OpenBoth(r.table + " (", "VALUES (");
    ComposeAll(r, m, key, value);
    ghost var cells := Cells(r, m, FIELDS);
    var closed := CloseBoth(key, value, r.table + " (", "VALUES (", cells);
    if !closed {
      return None;
    }
    var text := Finish("INSERT INTO ", key, value, ";");
    sql := Some(text);
  }

  method OpenBoth(k: string, v: string) returns (key: SBuf, value: SBuf)
    ensures fresh(key) && fresh(value) && fresh(key.buf) && fresh(value.buf)
    ensures Hold(key, value, k, v)
  {
    key := new SBuf(256);
    value := new SBuf(512);
    key.AppendF(k);
    value.Append(v);
  }

  /** Both trailing separators become closing parentheses; without cells the value
      list has no comma to replace. */
  method CloseBoth(key: SBuf, value: SBuf, ghost k: string, ghost v: string, ghost cells: seq<Cell>)
    returns (closed: bool)
    requires Hold(key, value, k + Separated(Columns(cells)), v + Separated(Values(cells)))
    requires ',' !in v
    modifies key.buf, value.buf
    ensures closed <==> cells != []
    ensures closed ==> Hold(key, value, k + Joined(Columns(cells)) + ") ", v + Joined(Values(cells)) + ") ")
    ensures key.buf == old(key.buf) && value.buf == old(value.buf)
  {
    if cells != [] {
      ClosingSeparated(k, Columns(cells));
      ClosingSeparated(v, Values(cells));
    } else {
      assert v + Separated(Values(cells)) == v;
    }
    closed := key.CloseAtLastComma();
    if !closed {
      return;
    }
    closed := value.CloseAtLastComma();
  }

  method Finish(head: string, key: SBuf, value: SBuf, tail: string) returns (sql: string)
    requires key.Valid() && value.Valid()
    ensures sql == head + key.Text() + value.Text() + tail
  {
    var clause := new SBuf(1024);
    clause.AppendF(head);
    assert clause.Text() == head;
    clause.Append(key.buf[..key.len]);
    clause.Append(value.buf[..value.len]);
    clause.Append(tail);
    sql := clause.buf[..clause.len];
  }
}
