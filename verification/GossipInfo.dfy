/**
 `BaseNode.get_gossip_info`: the tokens of `nodetool gossipinfo` are folded into four
 variables; as soon as schema, address and status are all set, one node's record is written
 and the variables are cleared. Nothing else separates one node's block from the next.
 */
module GossipInfo {
  import opened Text

  type Node = nat

  datatype Info = Info(schema: string, status: string, dc: string)

  /** The variables `schema`, `ip`, `status` and `dc`. */
  datatype Vars = Vars(schema: string, ip: string, status: string, dc: string)

  const CLEAN := Vars("", "", "", "")

  /** Raised is the ValueError of a malformed address. */
  datatype State = State(vars: Vars, found: map<Node, Info>) | Raised

  /** `exploded` normalises an address, or rejects it; `nodeOf` is the cluster's map from address to node. */
  datatype Context = Context(exploded: string -> Option<string>, nodeOf: map<string, Node>)

  datatype Kind = Schema | Address | Status | Dc | Other

  function KindOf(token: string): (k: Kind) {
    if "SCHEMA:" <= token then Schema
    else if "RPC_ADDRESS:" <= token then Address
    else if "STATUS:" <= token then Status
    else if "DC:" <= token then Dc
    else Other
  }

  /** Python's `s.replace(pat, '')` */
  function Without(s: string, pat: string): (r: string)
    requires |pat| > 0
    decreases |s|
  {
    var k := Find(s, pat, 0);
    if k == -1 then s else s[..k] + Without(s[k + |pat|..], pat)
  }

  function BeforeComma(s: string): (r: string) {
    Split(s, ",")[0]
  }

  function SchemaIn(token: string): (r: string) { Without(token, "SCHEMA:") }
  function AddressIn(token: string): (r: string) { Without(token, "RPC_ADDRESS:") }
  function StatusIn(token: string): (r: string) { BeforeComma(Without(token, "STATUS:")) }
  function DcIn(token: string): (r: string) { BeforeComma(Without(token, "DC:")) }

  function Assign(v: Vars, token: string, cx: Context): (r: Option<Vars>) {
    match KindOf(token)
    case Schema => Some(v.(schema := SchemaIn(token)))
    case Address =>
      var ip := cx.exploded(AddressIn(token));
      if ip.None? then None else Some(v.(ip := ip.value))
    case Status => Some(v.(status := StatusIn(token)))
    case Dc => Some(v.(dc := DcIn(token)))
    case Other => Some(v)
  }

  /** Write the record once the three deciding variables are set. */
  function Flush(v: Vars, found: map<Node, Info>, cx: Context): (s: State) {
    if v.schema != "" && v.ip != "" && v.status != "" then
      State(CLEAN, if v.ip in cx.nodeOf then found[cx.nodeOf[v.ip] := Info(v.schema, v.status, v.dc)] else found)
    else State(v, found)
  }

  function Step(s: State, token: string, cx: Context): (s': State) {
    if s.Raised? then Raised
    else
      var v := Assign(s.vars, token, cx);
      if v.None? then Raised else Flush(v.value, s.found, cx)
  }

  function Fold(s: State, tokens: seq<string>, cx: Context): (s': State)
    decreases |tokens|
  {
    if tokens == [] then s else Fold(Step(s, tokens[0], cx), tokens[1..], cx)
  }

  method GetGossipInfo(tokens: seq<string>, cx: Context) returns (r: Option<map<Node, Info>>)
    ensures var s := Fold(State(CLEAN, map[]), tokens, cx); r == if s.Raised? then None else Some(s.found)
  {
    hide KindOf, Without, BeforeComma;
    var schema, ip, status, dc := "", "", "", "";
    var found: map<Node, Info> := map[];
    for i := 0 to |tokens|
      invariant Fold(State(CLEAN, map[]), tokens, cx)
             == Fold(State(Vars(schema, ip, status, dc), found), tokens[i..], cx)
    {
      var token := tokens[i];
      assert tokens[i..][0] == token && tokens[i..][1..] == tokens[i + 1..];
      match KindOf(token) {
        case Schema => schema := SchemaIn(token);
        case Address =>
          var address := cx.exploded(AddressIn(token));
          if address.None? {
            RaisedStays(tokens[i + 1..], cx);
            return None;
          }
          ip := address.value;
        case Status => status := StatusIn(token);
        case Dc => dc := DcIn(token);
        case Other =>
      }
      if schema != "" && ip != "" && status != "" {
        if ip in cx.nodeOf {
          found := found[cx.nodeOf[ip] := Info(schema, status, dc)];
        }
        schema, ip, status, dc := "", "", "", "";
      }
    }
    r := Some(found);
  }

  lemma {:induction false} RaisedStays(tokens: seq<string>, cx: Context)
    ensures Fold(Raised, tokens, cx) == Raised
  {
    if tokens != [] {
      RaisedStays(tokens[1..], cx);
    }
  }

  lemma {:induction false} FoldConcat(s: State, a: seq<string>, b: seq<string>, cx: Context)
    ensures Fold(s, a + b, cx) == Fold(Fold(s, a, cx), b, cx)
    decreases |a|
  {
    hide Step;
    if a == [] {
      assert a + b == b;
    } else {
      assert (a + b)[1..] == a[1..] + b;
      FoldConcat(Step(s, a[0], cx), a[1..], b, cx);
    }
  }

  // ---- The printed form

  /** One node's block: where its schema, address, status and, if any, data centre stand among its tokens. */
  datatype Block = Block(tokens: seq<string>, schemaAt: nat, addressAt: nat, statusAt: nat, dcAt: Option<nat>)

  ghost predicate GoodBlock(b: Block, cx: Context) {
    && b.schemaAt < |b.tokens| && b.addressAt < |b.tokens| && b.statusAt < |b.tokens|
    && (b.dcAt.Some? ==> b.dcAt.value < |b.tokens|)
    && (forall i :: 0 <= i < |b.tokens| ==>
          && (KindOf(b.tokens[i]) == Schema <==> i == b.schemaAt)
          && (KindOf(b.tokens[i]) == Address <==> i == b.addressAt)
          && (KindOf(b.tokens[i]) == Status <==> i == b.statusAt)
          && (KindOf(b.tokens[i]) == Dc <==> b.dcAt == Some(i)))
    && SchemaIn(b.tokens[b.schemaAt]) != "" && StatusIn(b.tokens[b.statusAt]) != ""
    && cx.exploded(AddressIn(b.tokens[b.addressAt])).Some?
    && cx.exploded(AddressIn(b.tokens[b.addressAt])).value != ""
  }

  /** The token that completes the record. */
  function Last(b: Block): (m: nat) {
    var m := if b.schemaAt < b.addressAt then b.addressAt else b.schemaAt;
    if m < b.statusAt then b.statusAt else m
  }

  function OwnDc(b: Block): (dc: string)
    requires b.dcAt.Some? ==> b.dcAt.value < |b.tokens|
  {
    if b.dcAt.Some? then DcIn(b.tokens[b.dcAt.value]) else ""
  }

  /** The data centre is named before the record is complete. */
  predicate DcInTime(b: Block) {
    b.dcAt.Some? && b.dcAt.value < Last(b)
  }

  /** The data centre that comes too late for its own record and is still there for the next one. */
  function LateDc(b: Block): (dc: string)
    requires b.dcAt.Some? ==> b.dcAt.value < |b.tokens|
  {
    if DcInTime(b) then "" else OwnDc(b)
  }

  ghost function AddressOf(b: Block, cx: Context): (ip: string)
    requires GoodBlock(b, cx)
  {
    cx.exploded(AddressIn(b.tokens[b.addressAt])).value
  }

  /** The record written for a block when `d` is the data centre left over from before. */
  ghost function InfoOf(b: Block, d: string, cx: Context): (info: Info)
    requires GoodBlock(b, cx)
  {
    Info(SchemaIn(b.tokens[b.schemaAt]), StatusIn(b.tokens[b.statusAt]), if DcInTime(b) then OwnDc(b) else d)
  }

  ghost function Recorded(found: map<Node, Info>, b: Block, d: string, cx: Context): (m: map<Node, Info>)
    requires GoodBlock(b, cx)
  {
    var ip := AddressOf(b, cx);
    if ip in cx.nodeOf then found[cx.nodeOf[ip] := InfoOf(b, d, cx)] else found
  }

  /** The variables after the first `k` tokens of a block, before it is complete. */
  ghost function Partial(b: Block, k: nat, d: string, cx: Context): (v: Vars)
    requires GoodBlock(b, cx)
  {
    Vars(if b.schemaAt < k then SchemaIn(b.tokens[b.schemaAt]) else "",
         if b.addressAt < k then AddressOf(b, cx) else "",
         if b.statusAt < k then StatusIn(b.tokens[b.statusAt]) else "",
         if b.dcAt.Some? && b.dcAt.value < k then OwnDc(b) else d)
  }

  /** The variables after `k` tokens, once it is complete: nothing, or a data centre that came too late. */
  ghost function Leftover(b: Block, k: nat): (v: Vars)
    requires b.dcAt.Some? ==> b.dcAt.value < |b.tokens|
  {
    if b.dcAt.Some? && b.dcAt.value < k then CLEAN.(dc := LateDc(b)) else CLEAN
  }

  lemma AssignPartial(b: Block, k: nat, d: string, cx: Context)
    requires GoodBlock(b, cx) && k <= Last(b)
    ensures Assign(Partial(b, k, d, cx), b.tokens[k], cx) == Some(Partial(b, k + 1, d, cx))
  {
    hide KindOf, Without, BeforeComma;
  }

  lemma AssignLeftover(b: Block, k: nat, cx: Context)
    requires GoodBlock(b, cx) && Last(b) < k < |b.tokens|
    ensures Assign(Leftover(b, k), b.tokens[k], cx) == Some(Leftover(b, k + 1))
  {
    hide KindOf, Without, BeforeComma;
  }

  lemma {:induction false} TailFold(b: Block, k: nat, found: map<Node, Info>, cx: Context)
    requires GoodBlock(b, cx) && Last(b) < k <= |b.tokens|
    ensures Fold(State(Leftover(b, k), found), b.tokens[k..], cx) == State(Leftover(b, |b.tokens|), found)
    decreases |b.tokens| - k
  {
    hide KindOf, Without, BeforeComma, GoodBlock, Assign;
    if k < |b.tokens| {
      AssignLeftover(b, k, cx);
      GoodIndexes(b, cx);
      assert b.tokens[k..][1..] == b.tokens[k + 1..];
      TailFold(b, k + 1, found, cx);
    }
  }

  lemma GoodIndexes(b: Block, cx: Context)
    requires GoodBlock(b, cx)
    ensures Last(b) < |b.tokens| && (b.dcAt.Some? ==> b.dcAt.value < |b.tokens| && b.dcAt.value != Last(b))
  {
    hide KindOf, Without, BeforeComma;
    assert b.dcAt.Some? ==> KindOf(b.tokens[b.dcAt.value]) == Dc;
  }

  lemma FlushPartial(b: Block, k: nat, d: string, found: map<Node, Info>, cx: Context)
    requires GoodBlock(b, cx) && k <= Last(b)
    ensures Flush(Partial(b, k + 1, d, cx), found, cx) ==
      if k < Last(b) then State(Partial(b, k + 1, d, cx), found) else State(CLEAN, Recorded(found, b, d, cx))
  {
    hide KindOf, Without, BeforeComma;
    GoodIndexes(b, cx);
  }

  /** From anywhere in its first part a block ends with its record written and at most a late data centre left. */
  lemma {:induction false} HeadFold(b: Block, k: nat, d: string, found: map<Node, Info>, cx: Context)
    requires GoodBlock(b, cx) && k <= Last(b)
    ensures b.dcAt.Some? ==> b.dcAt.value < |b.tokens|
    ensures Fold(State(Partial(b, k, d, cx), found), b.tokens[k..], cx)
         == State(CLEAN.(dc := LateDc(b)), Recorded(found, b, d, cx))
    decreases Last(b) - k
  {
    hide KindOf, Without, BeforeComma, GoodBlock, Assign, Flush, Partial, Recorded;
    GoodIndexes(b, cx);
    AssignPartial(b, k, d, cx);
    FlushPartial(b, k, d, found, cx);
    assert b.tokens[k..][1..] == b.tokens[k + 1..];
    if k < Last(b) {
      HeadFold(b, k + 1, d, found, cx);
    } else {
      TailFold(b, k + 1, Recorded(found, b, d, cx), cx);
    }
  }

  /**
   A block adds exactly one record, its own, except that a data centre `d` left over from before
   stands in for its own if that is missing or late; only a late data centre is left over from it.
   */
  lemma BlockFold(b: Block, d: string, found: map<Node, Info>, cx: Context)
    requires GoodBlock(b, cx)
    ensures b.dcAt.Some? ==> b.dcAt.value < |b.tokens|
    ensures Fold(State(CLEAN.(dc := d), found), b.tokens, cx)
         == State(CLEAN.(dc := LateDc(b)), Recorded(found, b, d, cx))
  {
    hide KindOf, Without, BeforeComma, Recorded, Fold;
    HeadFold(b, 0, d, found, cx);
    assert b.tokens[0..] == b.tokens;
  }

  // ---- A whole printout

  function Printout(blocks: seq<Block>): (tokens: seq<string>) {
    if blocks == [] then [] else blocks[0].tokens + Printout(blocks[1..])
  }

  ghost predicate GoodBlocks(blocks: seq<Block>, cx: Context) {
    forall i :: 0 <= i < |blocks| ==> GoodBlock(blocks[i], cx)
  }

  /** What the block before `i` leaves over; `d` is what the first one finds. */
  ghost function Carried(blocks: seq<Block>, i: nat, d: string, cx: Context): (dc: string)
    requires GoodBlocks(blocks, cx) && i <= |blocks|
  {
    if i == 0 then d else LateDc(blocks[i - 1])
  }

  ghost function RecordedAll(found: map<Node, Info>, d: string, blocks: seq<Block>, cx: Context): (m: map<Node, Info>)
    requires GoodBlocks(blocks, cx)
    decreases |blocks|
  {
    if blocks == [] then found
    else RecordedAll(Recorded(found, blocks[0], d, cx), LateDc(blocks[0]), blocks[1..], cx)
  }

  lemma {:induction false} BlocksFold(blocks: seq<Block>, d: string, found: map<Node, Info>, cx: Context)
    requires GoodBlocks(blocks, cx)
    ensures Fold(State(CLEAN.(dc := d), found), Printout(blocks), cx)
         == State(CLEAN.(dc := Carried(blocks, |blocks|, d, cx)), RecordedAll(found, d, blocks, cx))
    decreases |blocks|
  {
    hide GoodBlock, Recorded, Step, LateDc;
    if blocks != [] {
      var b := blocks[0];
      BlockFold(b, d, found, cx);
      FoldConcat(State(CLEAN.(dc := d), found), b.tokens, Printout(blocks[1..]), cx);
      BlocksFold(blocks[1..], LateDc(b), Recorded(found, b, d, cx), cx);
    }
  }

  /** The block speaks of a node of the cluster. */
  ghost predicate Knows(b: Block, cx: Context, node: Node)
    requires GoodBlock(b, cx)
  {
    AddressOf(b, cx) in cx.nodeOf && cx.nodeOf[AddressOf(b, cx)] == node
  }

  ghost predicate LastAbout(blocks: seq<Block>, i: nat, cx: Context, node: Node)
    requires GoodBlocks(blocks, cx)
  {
    i < |blocks| && Knows(blocks[i], cx, node) && forall j :: i < j < |blocks| ==> !Knows(blocks[j], cx, node)
  }

  /** The record block `i` ends up with. */
  ghost function RecordOf(blocks: seq<Block>, i: nat, d: string, cx: Context): (info: Info)
    requires GoodBlocks(blocks, cx) && i < |blocks|
  {
    InfoOf(blocks[i], Carried(blocks, i, d, cx), cx)
  }

  lemma RecordOfRest(blocks: seq<Block>, i: nat, d: string, cx: Context, node: Node)
    requires GoodBlocks(blocks, cx) && 0 < i < |blocks|
    ensures RecordOf(blocks[1..], i - 1, LateDc(blocks[0]), cx) == RecordOf(blocks, i, d, cx)
    ensures LastAbout(blocks, i, cx, node) ==> LastAbout(blocks[1..], i - 1, cx, node)
  {
    hide GoodBlock, LateDc, AddressOf, InfoOf;
    var rest := blocks[1..];
    assert blocks[i] == rest[i - 1];
    assert forall j :: i - 1 < j < |rest| ==> rest[j] == blocks[j + 1];
  }

  lemma {:induction false} RecordedAllAt(found: map<Node, Info>, d: string, blocks: seq<Block>, cx: Context, node: Node)
    requires GoodBlocks(blocks, cx)
    ensures var m := RecordedAll(found, d, blocks, cx);
      && (node in m <==> node in found || exists i :: 0 <= i < |blocks| && Knows(blocks[i], cx, node))
      && ((forall i :: 0 <= i < |blocks| ==> !Knows(blocks[i], cx, node)) && node in found ==> m[node] == found[node])
      && (forall i: nat :: LastAbout(blocks, i, cx, node) ==> m[node] == RecordOf(blocks, i, d, cx))
    decreases |blocks|
  {
    hide GoodBlock, LateDc, AddressOf, InfoOf;
    if blocks != [] {
      var rest := blocks[1..];
      GoodIndexes(blocks[0], cx);
      RecordedAllAt(Recorded(found, blocks[0], d, cx), LateDc(blocks[0]), rest, cx, node);
      assert forall i :: 1 <= i < |blocks| ==> blocks[i] == rest[i - 1];
      forall i: nat | LastAbout(blocks, i, cx, node)
        ensures RecordedAll(found, d, blocks, cx)[node] == RecordOf(blocks, i, d, cx)
      {
        if i > 0 {
          RecordOfRest(blocks, i, d, cx, node);
        }
      }
    }
  }

  /**
   The result holds exactly the cluster's nodes among the blocks, each with the schema and status of
   its own (last) block, and with that block's data centre or the one the block before it left over.
   */
  lemma ParseIsExact(blocks: seq<Block>, cx: Context, node: Node)
    requires GoodBlocks(blocks, cx)
    ensures var s := Fold(State(CLEAN, map[]), Printout(blocks), cx);
      && s.State?
      && (node in s.found <==> exists i :: 0 <= i < |blocks| && Knows(blocks[i], cx, node))
      && (forall i: nat :: LastAbout(blocks, i, cx, node) ==> s.found[node] == RecordOf(blocks, i, "", cx))
  {
    hide GoodBlock, Fold, LastAbout, RecordOf;
    BlocksFold(blocks, "", map[], cx);
    RecordedAllAt(map[], "", blocks, cx, node);
  }

  /** Block `i` names its data centre in time, or it agrees with what the block before leaves over. */
  ghost predicate KeepsOwnDc(blocks: seq<Block>, i: nat, cx: Context)
    requires GoodBlocks(blocks, cx) && i < |blocks|
  {
    DcInTime(blocks[i]) || OwnDc(blocks[i]) == (if i == 0 then "" else LateDc(blocks[i - 1]))
  }

  /** Every known node has its own block's data centre exactly when each last block about one keeps its own. */
  lemma OwnDcsExactly(blocks: seq<Block>, cx: Context)
    requires GoodBlocks(blocks, cx)
    ensures var s := Fold(State(CLEAN, map[]), Printout(blocks), cx);
      && s.State?
      && (forall i: nat, node :: LastAbout(blocks, i, cx, node) ==> node in s.found)
      && ((forall i: nat, node :: LastAbout(blocks, i, cx, node) ==> s.found[node].dc == OwnDc(blocks[i]))
          <==> (forall i: nat, node :: LastAbout(blocks, i, cx, node) ==> KeepsOwnDc(blocks, i, cx)))
  {
    hide GoodBlock, Fold, AddressOf, Printout;
    var s := Fold(State(CLEAN, map[]), Printout(blocks), cx);
    BlocksFold(blocks, "", map[], cx);
    forall i | 0 <= i < |blocks| ensures blocks[i].dcAt.Some? ==> blocks[i].dcAt.value < |blocks[i].tokens| {
      GoodIndexes(blocks[i], cx);
    }
    forall i: nat, node | LastAbout(blocks, i, cx, node)
      ensures node in s.found && (s.found[node].dc == OwnDc(blocks[i]) <==> KeepsOwnDc(blocks, i, cx))
    {
      ParseIsExact(blocks, cx, node);
    }
  }

  // ---- Printed tokens

  lemma {:induction false} WithoutShrinks(s: string, pat: string)
    requires |pat| > 0
    ensures |Without(s, pat)| <= |s|
    ensures Without(s, pat) == s <==> !Contains(s, pat)
    decreases |s|
  {
    hide Find, OccursAt;
    var k := Find(s, pat, 0);
    if k != -1 {
      OccursWithin(s, pat, k);
      WithoutShrinks(s[k + |pat|..], pat);
      assert |Without(s, pat)| == k + |Without(s[k + |pat|..], pat)| < |s|;
    }
  }

  lemma OccursWithin(s: string, pat: string, k: int)
    requires OccursAt(s, pat, k)
    ensures 0 <= k && k + |pat| <= |s|
  {
  }

  /** A printed token gives back its value exactly when the value does not contain the label again. */
  lemma TokenRoundTrip(prefix: string, value: string)
    requires |prefix| > 0
    ensures Without(prefix + value, prefix) == value <==> !Contains(value, prefix)
  {
    WithoutShrinks(value, prefix);
    assert OccursAt(prefix + value, prefix, 0);
    assert Find(prefix + value, prefix, 0) == 0;
    assert (prefix + value)[|prefix|..] == value;
  }

  /** What follows the first comma of a status or data centre token is dropped. */
  lemma CommaCut(value: string, rest: string)
    requires ',' !in value
    ensures BeforeComma(value) == value && BeforeComma(value + "," + rest) == value
  {
    forall i | 0 <= i < |value| ensures !OccursAt(value, ",", i) {
      assert value[i..i + 1][0] == value[i];
    }
    var s := value + "," + rest;
    assert OccursAt(s, ",", |value|);
    forall i | 0 <= i < |value| ensures !OccursAt(s, ",", i) {
      assert s[i..i + 1][0] == value[i];
    }
  }

  /** Each label makes its kind of token, whatever follows it. */
  lemma LabelledKinds(v: string)
    ensures KindOf("SCHEMA:" + v) == Schema && KindOf("RPC_ADDRESS:" + v) == Address
    ensures KindOf("STATUS:" + v) == Status && KindOf("DC:" + v) == Dc
  {
    var a, b, c, d := "SCHEMA:" + v, "RPC_ADDRESS:" + v, "STATUS:" + v, "DC:" + v;
    assert a[..7] == "SCHEMA:" && b[..12] == "RPC_ADDRESS:" && c[..7] == "STATUS:" && d[..3] == "DC:";
    assert b[0] == 'R' && d[0] == 'D' && "SCHEMA:"[0] == 'S' && c[1] == 'T' && "SCHEMA:"[1] == 'C';
  }

  /** A token without any of the four labels in front is of no interest. */
  lemma UnlabelledKind(token: string)
    ensures KindOf(token) == Other <==>
      !("SCHEMA:" <= token) && !("RPC_ADDRESS:" <= token) && !("STATUS:" <= token) && !("DC:" <= token)
  {
  }

  lemma WithoutLabel(prefix: string, v: string)
    requires |prefix| > 0 && !Contains(v, prefix)
    ensures Without(prefix + v, prefix) == v
  {
    TokenRoundTrip(prefix, v);
  }

  /** A printed status or data centre is read back up to its first comma; schema and address are read back whole. */
  lemma ValuesReadBack(v: string, rest: string)
    requires ',' !in v
    ensures !Contains(v + "," + rest, "STATUS:") ==> StatusIn("STATUS:" + (v + "," + rest)) == v
    ensures !Contains(v + "," + rest, "DC:") ==> DcIn("DC:" + (v + "," + rest)) == v
    ensures !Contains(v, "STATUS:") ==> StatusIn("STATUS:" + v) == v
    ensures !Contains(v, "DC:") ==> DcIn("DC:" + v) == v
  {
    hide Without, Find, BeforeComma;
    CommaCut(v, rest);
    if !Contains(v + "," + rest, "STATUS:") { WithoutLabel("STATUS:", v + "," + rest); }
    if !Contains(v + "," + rest, "DC:") { WithoutLabel("DC:", v + "," + rest); }
    if !Contains(v, "STATUS:") { WithoutLabel("STATUS:", v); }
    if !Contains(v, "DC:") { WithoutLabel("DC:", v); }
  }

  lemma WholeValuesReadBack(v: string)
    ensures !Contains(v, "SCHEMA:") ==> SchemaIn("SCHEMA:" + v) == v
    ensures !Contains(v, "RPC_ADDRESS:") ==> AddressIn("RPC_ADDRESS:" + v) == v
  {
    hide Without, Find;
    if !Contains(v, "SCHEMA:") { WithoutLabel("SCHEMA:", v); }
    if !Contains(v, "RPC_ADDRESS:") { WithoutLabel("RPC_ADDRESS:", v); }
  }

  // ---- When the parser raises

  /** An address token whose value is no address. */
  predicate Malformed(token: string, cx: Context) {
    KindOf(token) == Address && cx.exploded(AddressIn(token)).None?
  }

  /** The parser raises exactly if some address token is malformed, wherever it stands. */
  lemma {:induction false} RaisesIff(s: State, tokens: seq<string>, cx: Context)
    requires s.State?
    ensures Fold(s, tokens, cx).Raised? <==> exists i :: 0 <= i < |tokens| && Malformed(tokens[i], cx)
    decreases |tokens|
  {
    hide KindOf, Without, BeforeComma;
    if tokens != [] {
      assert forall i :: 1 <= i < |tokens| ==> tokens[i] == tokens[1..][i - 1];
      if Malformed(tokens[0], cx) {
        RaisedStays(tokens[1..], cx);
      } else {
        RaisesIff(Step(s, tokens[0], cx), tokens[1..], cx);
      }
    }
  }

  // ---- A printout that leaks

  /** A block of the four tokens the parser looks at, the data centre last and so too late. */
  function LateBlock(ip: string, dc: string): (b: Block) {
    Block(["SCHEMA:s", "RPC_ADDRESS:" + ip, "STATUS:N", "DC:" + dc], 0, 1, 2, Some(3))
  }

  /** A block that names no data centre. */
  function BareBlock(ip: string): (b: Block) {
    Block(["SCHEMA:s", "RPC_ADDRESS:" + ip, "STATUS:N"], 0, 1, 2, None)
  }

  lemma WitnessTokens()
    ensures SchemaIn("SCHEMA:s") == "s" && StatusIn("STATUS:N") == "N"
  {
    assert "SCHEMA:" + "s" == "SCHEMA:s" && "STATUS:" + "N" == "STATUS:N";
    assert !OccursAt("s", "SCHEMA:", 0) && !OccursAt("N", "STATUS:", 0);
    TokenRoundTrip("SCHEMA:", "s");
    TokenRoundTrip("STATUS:", "N");
    CommaCut("N", "");
  }

  lemma WitnessBlocks(ip: string, dc: string, cx: Context)
    requires cx.exploded == (a => Some(a)) && ip != ""
    requires !Contains(ip, "RPC_ADDRESS:") && !Contains(dc, "DC:") && ',' !in dc
    ensures GoodBlock(LateBlock(ip, dc), cx) && GoodBlock(BareBlock(ip), cx)
    ensures AddressOf(LateBlock(ip, dc), cx) == ip == AddressOf(BareBlock(ip), cx)
    ensures LateDc(LateBlock(ip, dc)) == dc == OwnDc(LateBlock(ip, dc))
  {
    hide KindOf, Without, Find, BeforeComma;
    WitnessTokens();
    LabelledKinds(ip);
    LabelledKinds(dc);
    LabelledKinds("s");
    LabelledKinds("N");
    assert "SCHEMA:" + "s" == "SCHEMA:s" && "STATUS:" + "N" == "STATUS:N";
    TokenRoundTrip("RPC_ADDRESS:", ip);
    TokenRoundTrip("DC:", dc);
    CommaCut(dc, "");
  }

  /** The first node's late data centre goes to the second node, and the first node is left with none. */
  lemma LeakingPrintout(one: string, two: string, dc: string)
    requires one != "" && two != "" && one != two
    requires !Contains(one, "RPC_ADDRESS:") && !Contains(two, "RPC_ADDRESS:") && !Contains(dc, "DC:") && ',' !in dc
    ensures var cx := Context(a => Some(a), map[one := 1, two := 2]);
      Fold(State(CLEAN, map[]), LateBlock(one, dc).tokens + BareBlock(two).tokens, cx)
        == State(CLEAN, map[1 := Info("s", "N", ""), 2 := Info("s", "N", dc)])
  {
    hide Fold, KindOf, Without, Find, BeforeComma, GoodBlock;
    var cx := Context(a => Some(a), map[one := 1, two := 2]);
    var first, second := LateBlock(one, dc), BareBlock(two);
    WitnessBlocks(one, dc, cx);
    WitnessBlocks(two, dc, cx);
    WitnessTokens();
    FoldConcat(State(CLEAN, map[]), first.tokens, second.tokens, cx);
    BlockFold(first, "", map[], cx);
    BlockFold(second, dc, Recorded(map[], first, "", cx), cx);
    assert LateDc(second) == "";
  }
}
