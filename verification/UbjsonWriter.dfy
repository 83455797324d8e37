/** The writer step by step, against the octets that Ubjson.Bytes specifies. */
module UbjsonWriter {
  import opened Ubjson

  lemma {:induction false} ItemsBytesAppend(items: seq<Value>, x: Value, little: bool)
    requires (forall y | y in items :: Encodable(y)) && Encodable(x)
    ensures ItemsBytes(items + [x], little) == ItemsBytes(items, little) + Bytes(x, little)
  {
    if items == [] {
      assert items + [x] == [x];
    } else {
      assert (items + [x])[1..] == items[1..] + [x];
      ItemsBytesAppend(items[1..], x, little);
    }
  }

  lemma {:induction false} PropsBytesAppend(props: seq<Property>, p: Property, little: bool)
    requires (forall q | q in props + [p] :: IntFits(|q.name|) && Encodable(q.value))
    ensures PropsBytes(props + [p], little) == PropsBytes(props, little) + (NameBytes(p.name) + Bytes(p.value, little))
  {
    if props == [] {
      assert props + [p] == [p];
    } else {
      assert (props + [p])[1..] == props[1..] + [p];
      PropsBytesAppend(props[1..], p, little);
    }
  }

  lemma ListBytes(items: seq<Value>, little: bool)
    ensures ItemsBytes([], little) == ""
    ensures Encodable(List(items)) ==> Bytes(List(items), little) == "[" + ItemsBytes(items, little) + "]"
  {
  }

  lemma ObjectBytes(props: seq<Property>, little: bool)
    ensures PropsBytes([], little) == ""
    ensures Encodable(Obj(props)) ==> Bytes(Obj(props), little) == "{" + PropsBytes(props, little) + "}"
  {
  }

  lemma StringBytes(s: string, little: bool)
    ensures |s| == 1 ==> Bytes(Str(s), little) == "C" + s
    ensures |s| != 1 && IntFits(|s|) ==> Bytes(Str(s), little) == "S" + NameBytes(s)
  {
  }

  /** What goes out piece by piece is one piece behind what was out. */
  lemma InPieces(out: string, a: string, b: string, c: string)
    ensures out + a + b + c == out + (a + (b + c)) && out + a + b == out + (a + b)
    ensures out <= out + a <= out + a + b
  {
  }

  /** Octets go out through the write callback one call at a time; a throw leaves
      what is already out. */
  class Writer {
    const little: bool  // the machine's order of octets
    var out: string
    var depth: nat

    constructor (little: bool)
      ensures this.little == little && out == "" && depth == 0
    {
      this.little, out, depth := little, "", 0;
    }

    method PutInteger(i: int) returns (ok: bool)
      modifies this`out
      ensures ok == (-2147483647 <= i <= 2147483647) == IntFits(i)
      ensures out == old(out) + if ok then IntBytes(i) else ""
    {
      ok := true;
      if -128 <= i <= 127 {
        out := out + ['i'];
        out := out + Payload('i', i);
      } else if 0 <= i <= 255 {
        out := out + ['U'];
        out := out + Payload('U', i);
      } else if -32768 <= i <= 32767 {
        out := out + ['I'];
        out := out + Payload('I', i);
      } else if -2147483647 <= i <= 2147483647 {
        out := out + ['l'];
        out := out + Payload('l', i);
      } else {
        ok := false;
      }
    }

    /** The octets of a double go out as they are in memory. */
    method PutDouble(d: Float64)
      modifies this`out
      ensures out == old(out) + Bytes(Double(d), little)
    {
      out := out + ['D'];
      out := out + Native(d, little);
    }

    /** Property names go out without a marker, and never as a single octet. */
    method PutString(s: string, marker: bool) returns (ok: bool)
      modifies this`out
      ensures ok == ((marker && |s| == 1) || IntFits(|s|)) && old(out) <= out
      ensures ok ==> out == old(out) + if marker then Bytes(Str(s), little) else NameBytes(s)
    {
      hide Bytes, IntBytes, IntFits;
      StringBytes(s, little);
      ghost var before := out;
      ghost var lead := if marker then "S" else "";
      ghost var length := if IntFits(|s|) then IntBytes(|s|) else "";
      InPieces(before, lead, length, s);
      InPieces(before, "C", s, "");
      if |s| == 1 && marker {
        out := out + ['C'];
        out := out + s;
        ok := true;
      } else {
        if marker {
          out := out + ['S'];
        }
        ok := PutInteger(|s|);
        if ok {
          out := out + s;
        }
      }
    }

    method PutValue(v: Value) returns (ok: bool)
      modifies this
      ensures ok == Encodable(v) && old(out) <= out
      ensures ok ==> out == old(out) + Bytes(v, little) && depth == old(depth)
      decreases v
    {
      match v {
        case List(items) => ok := PutList(items);
        case Obj(props) => ok := PutObject(props);
        case Null =>
          out := out + ['Z'];
          ok := true;
        case Str(s) => ok := PutString(s, true);
        case Bool(b) =>
          out := out + [if b then 'T' else 'F'];
          ok := true;
        case Int(i) => ok := PutInteger(i);
        case Double(d) =>
          PutDouble(d);
          ok := true;
      }
    }

    method PutList(items: seq<Value>) returns (ok: bool)
      modifies this
      ensures ok == Encodable(List(items)) && old(out) <= out
      ensures ok ==> out == old(out) + Bytes(List(items), little) && depth == old(depth)
      decreases items
    {
      hide Bytes, ItemsBytes;
      ListBytes(items, little);
      out := out + ['['];
      for k := 0 to |items|
        invariant depth == old(depth) && forall x | x in items[..k] :: Encodable(x)
        invariant out == old(out) + "[" + ItemsBytes(items[..k], little)
      {
        ok := PutValue(items[k]);
        if !ok {
          return;
        }
        assert items[..k + 1] == items[..k] + [items[k]];
        ItemsBytesAppend(items[..k], items[k], little);
      }
      assert items[..|items|] == items;
      out := out + [']'];
      ok := true;
    }

    method PutObject(props: seq<Property>) returns (ok: bool)
      modifies this
      ensures ok == Encodable(Obj(props)) && old(out) <= out
      ensures ok ==> out == old(out) + Bytes(Obj(props), little) && depth == old(depth)
      decreases props
    {
      hide Bytes, PropsBytes, NameBytes, IntFits;
      ObjectBytes(props, little);
      out := out + ['{'];
      depth := depth + 1;
      for k := 0 to |props|
        invariant depth == old(depth) + 1 && forall p | p in props[..k] :: IntFits(|p.name|) && Encodable(p.value)
        invariant out == old(out) + "{" + PropsBytes(props[..k], little)
      {
        ok := PutString(props[k].name, false);
        if !ok {
          return;
        }
        ok := PutValue(props[k].value);
        if !ok {
          return;
        }
        assert props[..k + 1] == props[..k] + [props[k]];
        InPieces(old(out) + "{", PropsBytes(props[..k], little), NameBytes(props[k].name), Bytes(props[k].value, little));
        PropsBytesAppend(props[..k], props[k], little);
      }
      assert props[..|props|] == props;
      out := out + ['}'];
      depth := depth - 1;
      ok := true;
    }
  }
}
