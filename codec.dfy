/** `BinaryTree.serialize` and `BinaryTree.deserialize` (binary-tree.js:100-141).
    At the token level a tree is written in pre-order, a `Null` token for every
    absent child; at the text level each token becomes `null` or the value's
    decimal text and the tokens are joined with commas. */
module Codec {
  import opened Options
  import opened Trees
  import opened DecimalText

  /** One entry of the `values` array: the string `'null'` or a node value. */
  datatype Token = Null | Val(value: int)

  /** The pre-order token list of a tree. */
  function Encode(t: Tree): seq<Token>
  {
    if t.Nil? then [Null] else [Val(t.val)] + Encode(t.left) + Encode(t.right)
  }

  /** A tree of `n` nodes is written as `2n + 1` tokens, `n + 1` of them `Null`. */
  lemma {:induction false} EncodeCounts(t: Tree)
    ensures |Encode(t)| == 2 * Size(t) + 1
    ensures multiset(Encode(t))[Null] == Size(t) + 1
  {
    if t.Node? {
      EncodeCounts(t.left);
      EncodeCounts(t.right);
      assert multiset(Encode(t)) == multiset([Val(t.val)]) + multiset(Encode(t.left)) + multiset(Encode(t.right));
    }
  }

  /** The token `buildTree` sees at cursor `k`: once the cursor is past the
      end, it reads an absent child. */
  function TokenAt(tokens: seq<Token>, k: nat): Token
  {
    if k < |tokens| then tokens[k] else Null
  }

  /** The tokens from `index` on (read as `TokenAt` reads them) begin with the
      encoding of `t`. */
  ghost predicate EncodedAt(tokens: seq<Token>, index: nat, t: Tree)
  {
    forall k :: 0 <= k < |Encode(t)| ==> TokenAt(tokens, index + k) == Encode(t)[k]
  }

  /** A node's encoding is its value, then its left subtree's encoding, then its
      right subtree's. */
  lemma EncodedAtNode(tokens: seq<Token>, index: nat, t: Tree)
    requires t.Node?
    ensures EncodedAt(tokens, index, t) <==>
              && TokenAt(tokens, index) == Val(t.val)
              && EncodedAt(tokens, index + 1, t.left)
              && EncodedAt(tokens, index + 1 + |Encode(t.left)|, t.right)
  {
    if EncodedAt(tokens, index, t) {
      EncodedAtNodeParts(tokens, index, t);
    }
    if TokenAt(tokens, index) == Val(t.val) && EncodedAt(tokens, index + 1, t.left)
       && EncodedAt(tokens, index + 1 + |Encode(t.left)|, t.right) {
      EncodedAtNodeWhole(tokens, index, t);
    }
  }

  lemma EncodedAtNodeParts(tokens: seq<Token>, index: nat, t: Tree)
    requires t.Node? && EncodedAt(tokens, index, t)
    ensures TokenAt(tokens, index) == Val(t.val)
    ensures EncodedAt(tokens, index + 1, t.left)
    ensures EncodedAt(tokens, index + 1 + |Encode(t.left)|, t.right)
  {
    var e, el, er := Encode(t), Encode(t.left), Encode(t.right);
    assert TokenAt(tokens, index + 0) == e[0];
    forall k | 0 <= k < |el|
      ensures TokenAt(tokens, index + 1 + k) == el[k]
    {
      assert e[1 + k] == el[k];
      assert TokenAt(tokens, index + (1 + k)) == e[1 + k];
    }
    forall k | 0 <= k < |er|
      ensures TokenAt(tokens, index + 1 + |el| + k) == er[k]
    {
      assert e[1 + |el| + k] == er[k];
      assert TokenAt(tokens, index + (1 + |el| + k)) == e[1 + |el| + k];
    }
  }

  lemma EncodedAtNodeWhole(tokens: seq<Token>, index: nat, t: Tree)
    requires t.Node? && TokenAt(tokens, index) == Val(t.val)
    requires EncodedAt(tokens, index + 1, t.left)
    requires EncodedAt(tokens, index + 1 + |Encode(t.left)|, t.right)
    ensures EncodedAt(tokens, index, t)
  {
    var e, el, er := Encode(t), Encode(t.left), Encode(t.right);
    forall k | 0 <= k < |e|
      ensures TokenAt(tokens, index + k) == e[k]
    {
      if k == 0 {
      } else if k < 1 + |el| {
        assert e[k] == el[k - 1];
        assert TokenAt(tokens, index + 1 + (k - 1)) == el[k - 1];
      } else {
        assert e[k] == er[k - 1 - |el|];
        assert TokenAt(tokens, index + 1 + |el| + (k - 1 - |el|)) == er[k - 1 - |el|];
      }
    }
  }

  /** No encoding is a proper prefix of another: at most one tree is encoded
      from a given cursor, so what `buildTree` returns is determined. */
  lemma {:induction false} EncodingIsPrefixFree(tokens: seq<Token>, index: nat, t1: Tree, t2: Tree)
    requires EncodedAt(tokens, index, t1) && EncodedAt(tokens, index, t2)
    ensures t1 == t2
    decreases t1
  {
    assert TokenAt(tokens, index + 0) == Encode(t1)[0] == Encode(t2)[0];
    if t1.Node? && t2.Node? {
      EncodedAtNode(tokens, index, t1);
      EncodedAtNode(tokens, index, t2);
      EncodingIsPrefixFree(tokens, index + 1, t1.left, t2.left);
      EncodingIsPrefixFree(tokens, index + 1 + |Encode(t1.left)|, t1.right, t2.right);
    }
  }

  /** Tokens after the encoded tree do not matter. */
  lemma LeftoverTokensIgnored(tokens: seq<Token>, rest: seq<Token>, index: nat, t: Tree)
    requires index + |Encode(t)| <= |tokens|
    ensures EncodedAt(tokens, index, t) <==> EncodedAt(tokens + rest, index, t)
  {
  }

  /** The recursive `traverse` closure of `serialize`: `values` is the captured
      array on entry and `values'` the array after the subtree `node` has been
      pushed. */
  method SerializeTokens(node: Tree, values: seq<Token>) returns (values': seq<Token>)
    ensures values' == values + Encode(node)
  {
    if node.Nil? {
      values' := values + [Null];
      return;
    }
    values' := values + [Val(node.val)];
    values' := SerializeTokens(node.left, values');
    values' := SerializeTokens(node.right, values');
  }

  /** The recursive `buildTree` closure of `deserialize`: `index` is the shared
      cursor on entry and `index'` its value after the subtree has been built.
      A cursor past the end reads as an absent child. */
  method BuildTree(tokens: seq<Token>, index: nat) returns (node: Tree, index': nat)
    ensures index' == index + |Encode(node)|
    ensures EncodedAt(tokens, index, node)
    decreases |tokens| - index
  {
    if index >= |tokens| || tokens[index] == Null {
      index' := index + 1;
      return Nil, index';
    }
    var val := tokens[index].value;
    index' := index + 1;
    var left, right;
    left, index' := BuildTree(tokens, index');
    right, index' := BuildTree(tokens, index');
    node := Node(val, left, right);
    EncodedAtNode(tokens, index, node);
  }

  /** The text of one entry of `values` as `join` writes it. */
  function TokenText(tok: Token): string
  {
    if tok.Null? then "null" else IntToString(tok.value)
  }

  /** The texts of all entries of `values`. */
  function Texts(tokens: seq<Token>): seq<string>
  {
    seq(|tokens|, k requires 0 <= k < |tokens| => TokenText(tokens[k]))
  }

  /** What `buildTree` makes of one piece of the split string: `'null'` is an
      absent child, anything else goes through `parseInt`; `None` when that
      gives `NaN`. */
  function ReadToken(piece: string): (r: Option<Token>)
    ensures r == Some(Null) <==> piece == "null"
    ensures (forall k :: 0 <= k < |piece| ==> !IsDigit(piece[k])) && piece != "null" ==> r.None?
  {
    if piece == "null" then Some(Null)
    else
      match ParseInt(piece)
      case None => None
      case Some(v) => Some(Val(v))
  }

  /** All pieces read as tokens, or `None` when one of them is not a number. */
  function ReadTokens(pieces: seq<string>): (r: Option<seq<Token>>)
    ensures r.Some? ==> |r.value| == |pieces|
  {
    if pieces == [] then Some([])
    else
      match (ReadToken(pieces[0]), ReadTokens(pieces[1..]))
      case (Some(tok), Some(toks)) => Some([tok] + toks)
      case _ => None
  }

  /** Reading a token's text gives the token back. */
  lemma ReadTokenOfText(tok: Token)
    ensures ReadToken(TokenText(tok)) == Some(tok)
  {
    if tok.Val? {
      ParseIntOfIntToString(tok.value);
      IntToStringIsPlainToken(tok.value);
    }
  }

  /** Reading a non-empty list of pieces reads its first piece, then the rest. */
  lemma ReadTokensOfCons(piece: string, pieces: seq<string>, tok: Token, toks: seq<Token>)
    requires ReadToken(piece) == Some(tok) && ReadTokens(pieces) == Some(toks)
    ensures ReadTokens([piece] + pieces) == Some([tok] + toks)
  {
    assert ([piece] + pieces)[1..] == pieces;
  }

  /** `parseInt` reads back every token text. */
  lemma {:induction false} ReadTokensOfTexts(tokens: seq<Token>)
    ensures ReadTokens(Texts(tokens)) == Some(tokens)
  {
    if tokens != [] {
      assert Texts(tokens) == [TokenText(tokens[0])] + Texts(tokens[1..]);
      ReadTokensOfTexts(tokens[1..]);
      ReadTokenOfText(tokens[0]);
      ReadTokensOfCons(TokenText(tokens[0]), Texts(tokens[1..]), tokens[0], tokens[1..]);
      assert [tokens[0]] + tokens[1..] == tokens;
    }
  }

  /** The string `serialize` returns for a tree. */
  function SerializedText(t: Tree): string
  {
    Join(Texts(Encode(t)))
  }

  /** `BinaryTree.serialize(tree)` for a tree whose root is `root`. */
  method Serialize(root: Tree) returns (s: string)
    ensures s == SerializedText(root)
    ensures root.Nil? ==> s == "null"
  {
    var values := SerializeTokens(root, []);
    assert values == Encode(root);
    s := Join(Texts(values));
  }

  /** What `deserialize` returns: `null`, a `BinaryTree` with the given root, or
      the case the model does not follow, a piece read as `NaN`. */
  datatype Deserialized = NoTree | Built(root: Tree) | NotANumber

  /** `BinaryTree.deserialize(stringTree)`. */
  method Deserialize(s: string) returns (r: Deserialized)
    ensures r.NoTree? <==> s == ""
    ensures r.NotANumber? <==> s != "" && ReadTokens(Split(s)).None?
    ensures r.Built? ==> ReadTokens(Split(s)).Some? && EncodedAt(ReadTokens(Split(s)).value, 0, r.root)
  {
    if s == "" {
      return NoTree;
    }
    var values := Split(s);
    var tokens := ReadTokens(values);
    if tokens.None? {
      return NotANumber;
    }
    var root, _ := BuildTree(tokens.value, 0);
    r := Built(root);
  }

  /** The serialized text splits back into the token texts, and no text is
      empty. */
  lemma SerializedTextSplits(t: Tree)
    ensures SerializedText(t) != ""
    ensures ReadTokens(Split(SerializedText(t))) == Some(Encode(t))
  {
    var texts := Texts(Encode(t));
    forall k | 0 <= k < |texts|
      ensures ',' !in texts[k] && texts[k] != []
    {
      if Encode(t)[k].Val? { IntToStringIsPlainToken(Encode(t)[k].value); }
    }
    SplitJoin(texts);
    ReadTokensOfTexts(Encode(t));
    JoinIsNotEmpty(texts);
  }

  /** `deserialize(serialize(tree))` rebuilds the tree: a `BinaryTree` whose root
      has the shape and values of the original root. */
  method SerializeThenDeserialize(root: Tree) returns (r: Deserialized)
    ensures r == Built(root)
  {
    var s := Serialize(root);
    r := Deserialize(s);
    SerializedTextSplits(root);
    assert EncodedAt(Encode(root), 0, root);
    EncodingIsPrefixFree(Encode(root), 0, r.root, root);
  }
}
