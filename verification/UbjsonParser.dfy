/** The parser step by step, against what Ubjson.ParseValue specifies. */
module UbjsonParser {
  import opened Basics
  import opened Ubjson

  /** A method's outcome: its result and where it leaves the cursor. */
  predicate Agrees<T(==)>(r: Option<T>, cursor: nat, spec: Parsed<T>) {
    match spec
    case Failed => r == None
    case Done(v, next) => r == Some(v) && cursor == next
  }

  function Before(list: seq<Value>, rest: Parsed<seq<Value>>): Parsed<seq<Value>> {
    match rest
    case Failed => Failed
    case Done(more, next) => Done(list + more, next)
  }

  lemma BeforeNone(rest: Parsed<seq<Value>>)
    ensures Before([], rest) == rest
  {
    if rest.Done? {
      assert [] + rest.value == rest.value;
    }
  }

  lemma BeforeOneMore(list: seq<Value>, v: Value, rest: Parsed<seq<Value>>)
    ensures Before(list + [v], rest) == Before(list, Before([v], rest))
  {
    if rest.Done? {
      assert list + [v] + rest.value == list + ([v] + rest.value);
    }
  }

  class Parser {
    const input: string
    const m: Machine
    var cursor: nat

    constructor (input: string, m: Machine)
      ensures this.input == input && this.m == m && cursor == 0
    {
      this.input, this.m, cursor := input, m, 0;
    }

    function PeekByte(): (r: Option<char>)
      reads this
    {
      if cursor > |input| then None else if cursor == |input| then Some(m.past) else Some(input[cursor])
    }

    method NextByte() returns (r: Option<char>)
      modifies this
      ensures r == Peek(input, m, old(cursor))
      ensures cursor == old(cursor) + if r.Some? then 1 else 0
    {
      r := PeekByte();
      if r.Some? {
        cursor := cursor + 1;
      }
    }

    method NextBytes(len: nat) returns (r: Option<string>)
      modifies this
      ensures r == if old(cursor) + len > |input| then None else Some(input[old(cursor)..old(cursor) + len])
      ensures cursor == old(cursor) + if r.Some? then len else 0
    {
      if cursor + len > |input| {
        return None;
      }
      r := Some(input[cursor..cursor + len]);
      cursor := cursor + len;
    }

    method ParseNumber(marker: char) returns (r: Option<Value>)
      modifies this
      ensures Agrees(r, cursor, Ubjson.ParseNumber(input, m, old(cursor), marker))
    {
      var payload := NextBytes(Width(marker));
      if payload == None {
        return None;
      }
      match marker {
        case 'D' => r := Some(Double(payload.value));
        case 'd' => r := Some(Double(m.widen(payload.value)));
        case _ => r := Some(Int(Number(marker, payload.value)));
      }
    }

    method ParseLength() returns (r: Option<nat>)
      modifies this
      ensures Agrees(r, cursor, Ubjson.ParseLength(input, m, old(cursor)))
    {
      r := None;
      var marker := NextByte();
      if marker == None || marker.value !in {'i', 'U', 'I', 'l'} {
        return;
      }
      var payload := NextBytes(Width(marker.value));
      if payload.Some? && Number(marker.value, payload.value) >= 0 {
        r := Some(Number(marker.value, payload.value));
      }
    }

    method ParseString() returns (r: Option<string>)
      modifies this
      ensures Agrees(r, cursor, Ubjson.ParseString(input, m, old(cursor)))
    {
      var len := ParseLength();
      if len == None {
        return None;
      }
      r := NextBytes(len.value);
    }

    /** With a type given the octet at the cursor is not its marker. */
    method ParseValue(kind: Option<char>) returns (r: Option<Value>)
      requires cursor <= |input| + 1
      modifies this
      ensures kind == None ==> Agrees(r, cursor, Ubjson.ParseValue(input, m, old(cursor)))
      ensures kind.Some? ==> Agrees(r, cursor, ParseAs(input, m, old(cursor), kind.value))
      decreases |input| + 1 - cursor, if kind == None then 1 else 4
    {
      var c := kind;
      if c == None {
        c := NextByte();
        if c == None {
          return None;
        }
      }
      match c.value {
        case 'Z' => r := Some(Null);
        case 'N' => r := Some(Null);
        case 'T' => r := Some(Bool(true));
        case 'F' => r := Some(Bool(false));
        case 'C' =>
          var x := NextByte();
          r := if x == None then None else Some(Str([x.value]));
        case 'S' =>
          var s := ParseString();
          r := if s == None then None else Some(Str(s.value));
        case '[' =>
          var items := ParseArray();
          r := if items == None then None else Some(List(items.value));
        case '{' =>
          var props := ParseObject();
          r := if props == None then None else Some(Obj(props.value));
        case _ =>
          if c.value !in {'i', 'U', 'I', 'l', 'L', 'd', 'D'} {
            return None;
          }
          r := ParseNumber(c.value);
      }
    }

    /** A type or a count before the items is read, and then no item can be. */
    method ParseArray() returns (r: Option<seq<Value>>)
      requires cursor <= |input| + 1
      modifies this
      ensures Agrees(r, cursor, ArrayAt(input, m, old(cursor)))
      decreases |input| + 1 - cursor, 3
    {
      hide Ubjson.ParseNumber, Ubjson.ParseString, Number;
      ghost var start := cursor;
      r := None;
      var kind := None;
      var c := PeekByte();
      if c == Some('$') {
        kind := NextByte();
        c := PeekByte();
        if c == Some('#') {
          var _ := ParseLength();
          return;
        }
      } else if c == Some('#') {
        assert ParseAs(input, m, start + 1, '#') == Failed;
        assert Ubjson.ParseValue(input, m, start) == Failed;
        var _ := ParseLength();
        return;
      }
      var list := [];
      BeforeNone(ParseItems(input, m, cursor));
      while c != Some(']')
        invariant c == Peek(input, m, cursor) && start <= cursor <= |input| + 1
        invariant kind == None ==> ArrayAt(input, m, start) == Before(list, ParseItems(input, m, cursor))
        invariant kind.Some? ==> kind == Some('$') && list == [] && start < cursor
        invariant kind.Some? ==> ArrayAt(input, m, start) == if c == Some(']') then Done([], cursor + 1) else Failed
        decreases |input| + 1 - cursor
      {
        var v := ParseValue(kind);
        if v == None {
          return;
        }
        BeforeOneMore(list, v.value, ParseItems(input, m, cursor));
        list := list + [v.value];
        c := PeekByte();
      }
      c := NextByte();
      assert list + [] == list;
      r := Some(list);
    }

    method ParseObject() returns (r: Option<seq<Property>>)
      requires cursor <= |input| + 1
      modifies this
      ensures Agrees(r, cursor, ObjectAt(input, m, old(cursor)))
      decreases |input| + 1 - cursor, 3
    {
      hide Ubjson.ParseNumber, Number, AddProperty;
      ghost var start := cursor;
      r := None;
      var kind := None;
      var c := PeekByte();
      if c == Some('$') {
        kind := NextByte();
        c := PeekByte();
        if c == Some('#') {
          var _ := ParseLength();
          return;
        }
      } else if c == Some('#') {
        var _ := ParseLength();
        return;
      }
      c := PeekByte();
      var props := [];
      while c != Some('}')
        invariant c == Peek(input, m, cursor) && start <= cursor <= |input| + 1
        invariant kind == None ==> ObjectAt(input, m, start) == ParseProps(input, m, cursor, props)
        invariant kind.Some? ==> kind == Some('$') && props == [] && start < cursor
        invariant kind.Some? ==> ObjectAt(input, m, start) == if c == Some('}') then Done([], cursor + 1) else Failed
        decreases |input| + 1 - cursor
      {
        var name := ParseString();
        if name == None {
          return;
        }
        var v := ParseValue(kind);
        if v == None {
          return;
        }
        var more := AddProperty(props, Property(name.value, v.value));
        if more == None {
          return;
        }
        props := more.value;
        c := PeekByte();
      }
      c := NextByte();
      r := Some(props);
    }
  }
}
