/** What a parsed query holds: every key in the order it first came, and all its values in theirs. */
module QueryCollecting {
  import opened Text
  import opened UrlDecoding
  import opened QueryParser

  /** What is kept of the value of a piece. */
  function Stored(piece: Piece, useRaw: bool): Bytes {
    if useRaw || StartsRaw(piece.value) then piece.value else PlusToSpace(piece.value)
  }

  /** The values given for `name`, in order. */
  function Given(pieces: seq<Piece>, useRaw: bool, name: Bytes): seq<Bytes> {
    if pieces == [] then []
    else
      var n := |pieces| - 1;
      Given(pieces[..n], useRaw, name)
      + if Decode(false, pieces[n].key) == Decoded.Bytes(name) then [Stored(pieces[n], useRaw)] else []
  }

  /** The decoded keys, each where it first came. */
  function KeysInOrder(pieces: seq<Piece>): seq<Bytes> {
    if pieces == [] then []
    else
      var n := |pieces| - 1;
      var before, key := KeysInOrder(pieces[..n]), Decode(false, pieces[n].key);
      if key.Bytes? && key.bytes !in before then before + [key.bytes] else before
  }

  lemma {:induction false} AddAllMore(r: Parsed, pieces: seq<Piece>, piece: Piece, useRaw: bool)
    ensures AddAll(r, pieces + [piece], useRaw) == Add(AddAll(r, pieces, useRaw), piece, useRaw)
    decreases |pieces|
  {
    hide Add;
    if pieces == [] {
      assert pieces + [piece] == [piece] && [piece][1..] == [];
    } else {
      assert (pieces + [piece])[0] == pieces[0] && (pieces + [piece])[1..] == pieces[1..] + [piece];
      AddAllMore(Add(r, pieces[0], useRaw), pieces[1..], piece, useRaw);
    }
  }

  function ValuesFor(params: Params, name: Bytes): seq<Bytes> {
    if name in params.values then params.values[name] else []
  }

  /** `params` holds what `pieces` give. */
  ghost predicate Collects(params: Params, pieces: seq<Piece>, useRaw: bool) {
    && params.keys == KeysInOrder(pieces)
    && (forall name :: name in params.values <==> name in params.keys)
    && forall name :: ValuesFor(params, name) == Given(pieces, useRaw, name)
  }

  lemma GivenMore(pieces: seq<Piece>, piece: Piece, useRaw: bool, key: Bytes, name: Bytes)
    requires Decode(false, piece.key) == Decoded.Bytes(key)
    ensures Given(pieces + [piece], useRaw, name)
         == Given(pieces, useRaw, name) + if name == key then [Stored(piece, useRaw)] else []
    ensures KeysInOrder(pieces + [piece])
         == if key in KeysInOrder(pieces) then KeysInOrder(pieces) else KeysInOrder(pieces) + [key]
  {
    hide Decode, Stored;
    var n, more := |pieces|, pieces + [piece];
    assert more[..n] == pieces && more[n] == piece;
  }

  lemma PutValues(params: Params, key: Bytes, value: Bytes, name: Bytes)
    ensures var params' := QueryParser.Put(params, key, value);
      && ValuesFor(params', name) == ValuesFor(params, name) + (if name == key then [value] else [])
      && (name in params'.values <==> name in params.values || name == key)
      && params'.keys == if key in params.values then params.keys else params.keys + [key]
  {
    assert ValuesFor(params, name) + [] == ValuesFor(params, name) && [] + [value] == [value];
  }

  lemma CollectsMore(params: Params, pieces: seq<Piece>, piece: Piece, useRaw: bool, key: Bytes)
    requires Collects(params, pieces, useRaw) && Decode(false, piece.key) == Decoded.Bytes(key)
    ensures Collects(QueryParser.Put(params, key, Stored(piece, useRaw)), pieces + [piece], useRaw)
  {
    hide Decode, Stored, QueryParser.Put, ValuesFor, Given, KeysInOrder;
    var params' := QueryParser.Put(params, key, Stored(piece, useRaw));
    forall name
      ensures ValuesFor(params', name) == Given(pieces + [piece], useRaw, name)
      ensures name in params'.values <==> name in params'.keys
    {
      GivenMore(pieces, piece, useRaw, key, name);
      PutValues(params, key, Stored(piece, useRaw), name);
    }
    GivenMore(pieces, piece, useRaw, key, key);
    PutValues(params, key, Stored(piece, useRaw), key);
  }

  /** Parsing fails exactly when some key does not decode, and otherwise collects every piece. */
  lemma {:induction false} EveryPieceIsCollected(pieces: seq<Piece>, useRaw: bool)
    ensures var r := AddAll(Parsed(EMPTY), pieces, useRaw);
      && !r.SyntaxError?
      && (r.Parsed? <==> forall i :: 0 <= i < |pieces| ==> Decode(false, pieces[i].key).Bytes?)
      && (r.Parsed? ==> Collects(r.params, pieces, useRaw))
    decreases |pieces|
  {
    hide Decode, Collects, QueryParser.Put;
    if pieces == [] {
      NothingCollected(useRaw);
    } else {
      var n := |pieces| - 1;
      EveryPieceIsCollected(pieces[..n], useRaw);
      assert pieces[..n] + [pieces[n]] == pieces;
      AddAllMore(Parsed(EMPTY), pieces[..n], pieces[n], useRaw);
      var r := AddAll(Parsed(EMPTY), pieces[..n], useRaw);
      hide AddAll;
      if r.Parsed? && Decode(false, pieces[n].key).Bytes? {
        CollectsMore(r.params, pieces[..n], pieces[n], useRaw, Decode(false, pieces[n].key).bytes);
      }
    }
  }

  lemma NothingCollected(useRaw: bool)
    ensures Collects(EMPTY, [], useRaw)
  {
  }

  /** So a query that parses holds all values of a repeated key, in the order they were given. */
  lemma QueryHoldsAllValues(uri: Bytes, useRaw: bool)
    ensures var r := ParseSpec(uri, useRaw);
      && (r.SyntaxError? <==> uri != [] && uri[|uri| - 1] == AMP)
      && (r.Parsed? ==> Collects(r.params, Scan(true, [], [], uri), useRaw))
  {
    hide Collects, Scan, AddAll;
    EveryPieceIsCollected(Scan(true, [], [], uri), useRaw);
  }

  /** Piece `i` is the last that gives `name` a value. */
  predicate LastFor(pieces: seq<Piece>, name: Bytes, i: int) {
    && 0 <= i < |pieces| && Decode(false, pieces[i].key) == Decoded.Bytes(name)
    && forall j :: i < j < |pieces| ==> Decode(false, pieces[j].key) != Decoded.Bytes(name)
  }

  lemma LastForMore(pieces: seq<Piece>, piece: Piece, name: Bytes, i: int)
    ensures LastFor(pieces + [piece], name, i)
       <==> if i == |pieces| then Decode(false, piece.key) == Decoded.Bytes(name)
            else Decode(false, piece.key) != Decoded.Bytes(name) && LastFor(pieces, name, i)
  {
    hide Decode;
    var more := pieces + [piece];
    assert more[|pieces|] == piece && forall j :: 0 <= j < |pieces| ==> more[j] == pieces[j];
  }

  /** A decoded body fails exactly when a key or a value does not decode; a name has the value it was last given. */
  lemma {:induction false} BodyHoldsLastValues(pieces: seq<Piece>)
    ensures FormDecode(pieces).Form? <==>
      forall i :: 0 <= i < |pieces| ==> Decode(false, pieces[i].key).Bytes? && Decode(false, pieces[i].value).Bytes?
    ensures FormDecode(pieces).Form? ==> forall name ::
      name in FormDecode(pieces).fields <==> exists i :: LastFor(pieces, name, i)
    ensures FormDecode(pieces).Form? ==> forall name, i :: LastFor(pieces, name, i) ==>
      0 <= i < |pieces| && name in FormDecode(pieces).fields
      && Decoded.Bytes(FormDecode(pieces).fields[name]) == Decode(false, pieces[i].value)
    decreases |pieces|
  {
    hide Decode, LastFor;
    if pieces == [] {
      NoneIsLast();
    } else {
      var n := |pieces| - 1;
      BodyHoldsLastValues(pieces[..n]);
      var before, key := FormDecode(pieces[..n]), Decode(false, pieces[n].key);
      assert pieces[..n] + [pieces[n]] == pieces;
      if FormDecode(pieces).Form? {
        forall name, i
          ensures LastFor(pieces, name, i)
             <==> if i == n then key == Decoded.Bytes(name)
                  else key != Decoded.Bytes(name) && LastFor(pieces[..n], name, i)
        {
          LastForMore(pieces[..n], pieces[n], name, i);
        }
        forall name, i | LastFor(pieces, name, i)
          ensures 0 <= i < |pieces| && name in FormDecode(pieces).fields
          ensures Decoded.Bytes(FormDecode(pieces).fields[name]) == Decode(false, pieces[i].value)
        {
          LastForIsPiece(pieces, name, i);
        }
        assert LastFor(pieces, key.bytes, n);
        forall name | name in FormDecode(pieces).fields ensures exists i :: LastFor(pieces, name, i) {
          if name != key.bytes {
            var i :| LastFor(pieces[..n], name, i);
            LastForIsPiece(pieces[..n], name, i);
            assert LastFor(pieces, name, i);
          }
        }
      }
    }
  }

  lemma LastForIsPiece(pieces: seq<Piece>, name: Bytes, i: int)
    requires LastFor(pieces, name, i)
    ensures 0 <= i < |pieces|
  {
  }

  lemma NoneIsLast()
    ensures forall name, i :: !LastFor([], name, i)
  {
  }
}
