/**
 * The JSON boundary. A stored value is a JSON document, modelled at the level
 * of its tokens; `Marshal` plays json.Marshal and `Unmarshal` json.Unmarshal
 * into an interface{} target, with `AsString` and `AsStrings` for the string
 * and []string targets used by the scans and the index manager.
 */
module Json {
  import opened Wrappers
  import opened Errors

  /** A Go value handed to json.Marshal. `Unencodable` stands for what Marshal refuses (channels, functions, complex numbers, NaN). */
  datatype Value =
    | Null
    | Bool(b: bool)
    | Number(n: int)
    | String(s: string)
    | Array(items: seq<Value>)
    | Object(members: seq<Member>)
    | Unencodable

  /** One name/value pair of an object, in the order the encoder writes it. */
  datatype Member = Member(name: string, value: Value)

  datatype Token =
    | NullTok | TrueTok | FalseTok | NumTok(n: int) | StrTok(s: string)
    | ArrayStart | ArrayEnd | ObjectStart | ObjectEnd

  /** The bytes stored in the engine: a sequence of JSON tokens (any sequence, well-formed or not). */
  type Doc = seq<Token>

  /** json.Marshal succeeds exactly on values with no unsupported part. */
  predicate Encodable(v: Value)
    decreases v
  {
    match v
    case Unencodable => false
    case Array(items) => forall i :: 0 <= i < |items| ==> Encodable(items[i])
    case Object(members) => forall i :: 0 <= i < |members| ==> Encodable(members[i].value)
    case _ => true
  }

  function Tokens(v: Value): Doc
    decreases v, 1
  {
    match v
    case Null => [NullTok]
    case Bool(b) => if b then [TrueTok] else [FalseTok]
    case Number(n) => [NumTok(n)]
    case String(s) => [StrTok(s)]
    case Array(items) => [ArrayStart] + ItemTokens(items) + [ArrayEnd]
    case Object(members) => [ObjectStart] + MemberTokens(members) + [ObjectEnd]
    case Unencodable => []
  }

  function ItemTokens(items: seq<Value>): Doc
    decreases items, 0
  {
    if items == [] then [] else Tokens(items[0]) + ItemTokens(items[1..])
  }

  function MemberTokens(members: seq<Member>): Doc
    decreases members, 0
  {
    if members == [] then []
    else
      [StrTok(members[0].name)] + Tokens(members[0].value) + MemberTokens(members[1..])
  }

  function Marshal(v: Value): Result<Doc, Error>
  {
    if Encodable(v) then Ok(Tokens(v)) else Err(Errors.Unsupported)
  }

  /** Reads one value from the front of `d`; returns it with the tokens that follow. */
  function ParseValue(d: Doc): (r: Option<(Value, Doc)>)
    ensures r.Some? ==> |r.value.1| < |d|
    decreases |d|, 0
  {
    if d == [] then None
    else match d[0]
      case NullTok => Some((Null, d[1..]))
      case TrueTok => Some((Bool(true), d[1..]))
      case FalseTok => Some((Bool(false), d[1..]))
      case NumTok(n) => Some((Number(n), d[1..]))
      case StrTok(s) => Some((String(s), d[1..]))
      case ArrayStart => ParseItems(d[1..], [])
      case ObjectStart => ParseMembers(d[1..], [])
      case _ => None
  }

  /** Reads array elements up to the closing token; `acc` holds the elements read so far. */
  function ParseItems(d: Doc, acc: seq<Value>): (r: Option<(Value, Doc)>)
    ensures r.Some? ==> |r.value.1| < |d|
    decreases |d|, 1
  {
    if d == [] then None
    else if d[0] == ArrayEnd then Some((Array(acc), d[1..]))
    else match ParseValue(d)
      case None => None
      case Some((v, rest)) => ParseItems(rest, acc + [v])
  }

  /** Reads object members (a name token, then a value) up to the closing token. */
  function ParseMembers(d: Doc, acc: seq<Member>): (r: Option<(Value, Doc)>)
    ensures r.Some? ==> |r.value.1| < |d|
    decreases |d|, 1
  {
    if d == [] then None
    else if d[0] == ObjectEnd then Some((Object(acc), d[1..]))
    else if !d[0].StrTok? then None
    else match ParseValue(d[1..])
      case None => None
      case Some((v, rest)) => ParseMembers(rest, acc + [Member(d[0].s, v)])
  }

  /** json.Unmarshal into interface{}: exactly one value and nothing after it. */
  function Unmarshal(d: Doc): Result<Value, Error>
  {
    match ParseValue(d)
    case Some((v, rest)) => if rest == [] then Ok(v) else Err(Syntax)
    case None => Err(Syntax)
  }

  /** json.Unmarshal into a fresh string: null leaves it "", any other non-string is a type error. */
  function AsString(d: Doc): Result<string, Error>
  {
    var v :- Unmarshal(d);
    match v
    case String(s) => Ok(s)
    case Null => Ok("")
    case _ => Err(TypeMismatch)
  }

  /** A Go []string: None is the nil slice. */
  type Strings = Option<seq<string>>

  function Elements(xs: Strings): seq<string>
  {
    if xs.Some? then xs.value else []
  }

  /** The elements of a decoded array as strings; a null element becomes "". */
  function StringItems(items: seq<Value>): Option<seq<string>>
  {
    if items == [] then Some([])
    else
      var head := match items[0] case String(s) => Some(s) case Null => Some("") case _ => None;
      match (head, StringItems(items[1..]))
      case (Some(h), Some(t)) => Some([h] + t)
      case _ => None
  }

  /** json.Unmarshal into a []string: null gives the nil slice. */
  function AsStrings(d: Doc): Result<Strings, Error>
  {
    var v :- Unmarshal(d);
    match v
    case Null => Ok(None)
    case Array(items) =>
      (match StringItems(items)
       case Some(xs) => Ok(Some(xs))
       case None => Err(TypeMismatch))
    case _ => Err(TypeMismatch)
  }

  function StringValues(xs: seq<string>): (r: seq<Value>)
    ensures |r| == |xs|
  {
    if xs == [] then [] else [String(xs[0])] + StringValues(xs[1..])
  }

  /** json.Marshal of a []string, which never fails: the nil slice is written as null. */
  function MarshalStrings(xs: Strings): Doc
  {
    match xs
    case None => [NullTok]
    case Some(l) => Tokens(Array(StringValues(l)))
  }

  // ---- Round trip ----

  lemma {:induction false} ParseTokens(v: Value, rest: Doc)
    requires Encodable(v)
    ensures ParseValue(Tokens(v) + rest) == Some((v, rest))
    decreases v, 1
  {
    var d := Tokens(v) + rest;
    match v
    case Array(items) =>
      assert d == [ArrayStart] + (ItemTokens(items) + ([ArrayEnd] + rest));
      ParseItemTokens(items, [], rest);
      assert [] + items == items;
    case Object(members) =>
      assert d == [ObjectStart] + (MemberTokens(members) + ([ObjectEnd] + rest));
      ParseMemberTokens(members, [], rest);
      assert [] + members == members;
    case Unencodable =>
      assert false;
    case _ =>
      assert d[1..] == rest;
  }

  lemma {:induction false} ParseItemTokens(items: seq<Value>, acc: seq<Value>, rest: Doc)
    requires forall i :: 0 <= i < |items| ==> Encodable(items[i])
    ensures ParseItems(ItemTokens(items) + ([ArrayEnd] + rest), acc) == Some((Array(acc + items), rest))
    decreases items, 0
  {
    if items == [] {
      assert acc + items == acc;
      assert (ItemTokens(items) + ([ArrayEnd] + rest))[1..] == rest;
    } else {
      var d := ItemTokens(items) + ([ArrayEnd] + rest);
      var tail := ItemTokens(items[1..]) + ([ArrayEnd] + rest);
      assert d == Tokens(items[0]) + tail;
      assert Encodable(items[0]);
      ParseTokens(items[0], tail);
      assert Tokens(items[0]) != [] by { NonEmptyTokens(items[0]); }
      assert d[0] != ArrayEnd by { FirstToken(items[0], tail); }
      ParseItemTokens(items[1..], acc + [items[0]], rest);
      assert acc + [items[0]] + items[1..] == acc + items;
    }
  }

  lemma {:induction false} ParseMemberTokens(members: seq<Member>, acc: seq<Member>, rest: Doc)
    requires forall i :: 0 <= i < |members| ==> Encodable(members[i].value)
    ensures ParseMembers(MemberTokens(members) + ([ObjectEnd] + rest), acc) == Some((Object(acc + members), rest))
    decreases members, 0
  {
    if members == [] {
      assert acc + members == acc;
      assert (MemberTokens(members) + ([ObjectEnd] + rest))[1..] == rest;
    } else {
      var d := MemberTokens(members) + ([ObjectEnd] + rest);
      var tail := MemberTokens(members[1..]) + ([ObjectEnd] + rest);
      assert d == [StrTok(members[0].name)] + (Tokens(members[0].value) + tail);
      assert d[1..] == Tokens(members[0].value) + tail;
      assert Encodable(members[0].value);
      ParseTokens(members[0].value, tail);
      ParseMemberTokens(members[1..], acc + [members[0]], rest);
      assert acc + [members[0]] + members[1..] == acc + members;
    }
  }

  lemma NonEmptyTokens(v: Value)
    requires Encodable(v)
    ensures Tokens(v) != []
  {
  }

  /** An encoded value never begins with a closing token, so it cannot be mistaken for the end of an array. */
  lemma FirstToken(v: Value, rest: Doc)
    requires Encodable(v)
    ensures (Tokens(v) + rest)[0] != ArrayEnd && (Tokens(v) + rest)[0] != ObjectEnd
  {
  }

  /** Unmarshal undoes Marshal. */
  lemma UnmarshalMarshal(v: Value)
    requires Marshal(v).Ok?
    ensures Unmarshal(Marshal(v).value) == Ok(v)
  {
    ParseTokens(v, []);
    assert Tokens(v) + [] == Tokens(v);
  }

  /** Marshal of a []string is read back as the same slice, nil included. */
  lemma AsStringsMarshalStrings(xs: Strings)
    ensures AsStrings(MarshalStrings(xs)) == Ok(xs)
  {
    match xs
    case None =>
    case Some(l) =>
      var v := Array(StringValues(l));
      StringValuesEncodable(l);
      UnmarshalMarshal(v);
      StringItemsOfValues(l);
  }

  lemma {:induction false} StringValuesEncodable(xs: seq<string>)
    ensures forall i :: 0 <= i < |StringValues(xs)| ==> Encodable(StringValues(xs)[i])
  {
    if xs != [] {
      StringValuesEncodable(xs[1..]);
      forall i | 0 <= i < |StringValues(xs)| ensures Encodable(StringValues(xs)[i]) {
        if i > 0 { assert StringValues(xs)[i] == StringValues(xs[1..])[i - 1]; }
      }
    }
  }

  lemma {:induction false} StringItemsOfValues(xs: seq<string>)
    ensures StringItems(StringValues(xs)) == Some(xs)
  {
    if xs != [] {
      StringItemsOfValues(xs[1..]);
      assert StringValues(xs)[1..] == StringValues(xs[1..]);
      assert [xs[0]] + xs[1..] == xs;
    }
  }

  /** A marshalled string reads back as that string. */
  lemma AsStringMarshal(s: string)
    ensures AsString(Tokens(String(s))) == Ok(s)
  {
  }
}
