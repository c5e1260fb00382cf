/** The command interpreter over the three engines. */
module KvStore {
  import opened CStrings
  import opened Options
  import opened Pairs
  import opened KvArray
  import opened KvRbtree
  import opened KvHash
  import opened KvTokens
  import opened Sequences

  const BUFFER_LENGTH := 1024

  const COMMANDS: seq<string> := [
    "SET", "GET", "DEL", "COUNT", "EXIST",
    "RSET", "RGET", "RDEL", "RCOUNT", "REXIST",
    "HSET", "HGET", "HDEL", "HCOUNT", "HEXIST"]

  datatype Engine = Plain | Tree | Table

  datatype Request =
    | Set(key: CString, value: CString)
    | Get(key: CString)
    | Del(key: CString)
    | Count
    | Exist(key: CString)

  /** The command text of a request to an engine. */
  function Command(e: Engine, req: Request): string {
    (match e case Plain => "" case Tree => "R" case Table => "H")
    + (match req
      case Set(_, _) => "SET"
      case Get(_) => "GET"
      case Del(_) => "DEL"
      case Count => "COUNT"
      case Exist(_) => "EXIST")
  }

  /** The arguments that follow the command. */
  function Arguments(req: Request): seq<CString> {
    match req
    case Set(k, v) => [k, v]
    case Get(k) => [k]
    case Del(k) => [k]
    case Count => []
    case Exist(k) => [k]
  }

  /** `tokens` asks the engine `e` for `req`; whatever follows the arguments is ignored. */
  ghost predicate Asks(tokens: seq<CString>, e: Engine, req: Request) {
    tokens != [] && tokens[0] == Command(e, req) && Arguments(req) <= tokens[1..]
  }

  // ---------------------------------------------------------------- the finite map behind every engine

  function Decimal(n: nat): CString {
    if n < 10 then [(n + 48) as char] else Decimal(n / 10) + [(n % 10 + 48) as char]
  }

  predicate Digits(s: string) {
    s != [] && forall i :: 0 <= i < |s| ==> '0' <= s[i] <= '9'
  }

  /** The number that a row of digits stands for. */
  function Value(s: string): nat
    requires s == [] || Digits(s)
  {
    if s == [] then 0 else Value(s[..|s| - 1]) * 10 + (s[|s| - 1] as int - '0' as int)
  }

  /** A client reads the count back from the reply, which has no leading zero. */
  lemma {:induction false} DecimalReads(n: nat)
    ensures Digits(Decimal(n)) && Value(Decimal(n)) == n && (n > 0 ==> Decimal(n)[0] != '0')
  {
    var s := Decimal(n);
    if n >= 10 {
      DecimalReads(n / 10);
      assert s[..|s| - 1] == Decimal(n / 10);
    } else {
      assert s[..0] == [];
    }
  }

  lemma ValueOfDigits(s: string, c: char)
    requires (s == [] || Digits(s)) && '0' <= c <= '9'
    ensures Digits(s + [c]) && Value(s + [c]) == 10 * Value(s) + (c as int - 48) && Value([]) == 0
  {
    assert (s + [c])[..|s|] == s;
  }

  function Pow10(k: nat): nat {
    if k == 0 then 1 else 10 * Pow10(k - 1)
  }

  lemma {:induction false} DecimalShort(n: nat, k: nat)
    requires k > 0 && n < Pow10(k)
    ensures |Decimal(n)| <= k
  {
    if n >= 10 {
      DecimalShort(n / 10, k - 1);
    }
  }

  lemma CountExamples()
    ensures Decimal(0) == "0" && Decimal(10) == "10" && Decimal(1023) == "1023"
  {
    assert Decimal(102) == Decimal(10) + "2";
  }

  /** What `snprintf` keeps of a text in the reply buffer. */
  function Truncated(s: string): string {
    if |s| < BUFFER_LENGTH then s else s[..BUFFER_LENGTH - 1]
  }

  function Reply(m: Contents, req: Request): string {
    match req
    case Set(_, _) => "SUCCESS"
    case Get(k) => if k in m then Truncated(m[k]) else "NO EXIST"
    case Del(k) => if k in m then "SUCCESS" else "NO EXIST"
    case Count => Truncated(Decimal(|m|))
    case Exist(k) => if k in m then "EXISTED" else "NO EXIST"
  }

  function Next(m: Contents, req: Request): Contents {
    match req
    case Set(k, v) => m[k := v]
    case Del(k) => m - {k}
    case _ => m
  }

  /** The array engine refuses to set anything while it is full. */
  predicate Refused(e: Engine, m: Contents, req: Request) {
    e == Plain && req.Set? && |m| == ARRAY_SIZE
  }

  function EngineReply(e: Engine, m: Contents, req: Request): string {
    if Refused(e, m, req) then "ERROR" else Reply(m, req)
  }

  function EngineNext(e: Engine, m: Contents, req: Request): Contents {
    if Refused(e, m, req) then m else Next(m, req)
  }

  /** The row of digits of the count, without a leading zero, is what a count answers; an `int` is never cut. */
  lemma CountText(e: Engine, m: Contents)
    ensures exists d ::
      && Digits(d) && Value(d) == |m| && (|m| > 0 ==> d[0] != '0')
      && EngineReply(e, m, Count) == if |d| < 1024 then d else d[..1023]
    ensures |m| < 0x8000_0000 ==> Digits(EngineReply(e, m, Count)) && Value(EngineReply(e, m, Count)) == |m|
  {
    DecimalReads(|m|);
    if |m| < 0x8000_0000 {
      assert Pow10(10) == 10_000_000_000;
      DecimalShort(|m|, 10);
    }
    hide Digits, Value, Decimal, Pow10;
    assert EngineReply(e, m, Count) == var d := Decimal(|m|); if |d| < 1024 then d else d[..1023];
  }

  /** What a client is told, and what becomes of the stored map, verb by verb. */
  lemma ReplyTexts(e: Engine, m: Contents, req: Request)
    ensures var r, m' := EngineReply(e, m, req), EngineNext(e, m, req);
      match req
      case Set(k, v) =>
        if e == Plain && |m| == 1024 then r == "ERROR" && m' == m else r == "SUCCESS" && m' == m[k := v]
      case Get(k) =>
        && m' == m
        && r == if k !in m then "NO EXIST" else if |m[k]| < 1024 then m[k] else m[k][..1023]
      case Del(k) => r == (if k in m then "SUCCESS" else "NO EXIST") && m' == m - {k}
      case Count => m' == m && (|m| < 0x8000_0000 ==> Digits(r) && Value(r) == |m|)
      case Exist(k) => r == (if k in m then "EXISTED" else "NO EXIST") && m' == m
  {
    if req.Count? {
      CountText(e, m);
    }
    hide Digits, Value, Decimal;
  }

  function Replies(m: Contents, reqs: seq<Request>): seq<string>
    decreases reqs
  {
    if reqs == [] then [] else [Reply(m, reqs[0])] + Replies(Next(m, reqs[0]), reqs[1..])
  }

  function EngineReplies(e: Engine, m: Contents, reqs: seq<Request>): seq<string>
    decreases reqs
  {
    if reqs == [] then [] else [EngineReply(e, m, reqs[0])] + EngineReplies(e, EngineNext(e, m, reqs[0]), reqs[1..])
  }

  function After(m: Contents, reqs: seq<Request>): Contents
    decreases reqs
  {
    if reqs == [] then m else After(Next(m, reqs[0]), reqs[1..])
  }

  function EngineAfter(e: Engine, m: Contents, reqs: seq<Request>): Contents
    decreases reqs
  {
    if reqs == [] then m else EngineAfter(e, EngineNext(e, m, reqs[0]), reqs[1..])
  }

  lemma Nothing(m: Contents)
    ensures forall e :: EngineAfter(e, m, []) == m && EngineReplies(e, m, []) == []
  {
  }

  /** One more request at the end of a run. */
  lemma {:induction false} Appended(e: Engine, m: Contents, reqs: seq<Request>, req: Request)
    ensures EngineAfter(e, m, reqs + [req]) == EngineNext(e, EngineAfter(e, m, reqs), req)
    ensures EngineReplies(e, m, reqs + [req])
         == EngineReplies(e, m, reqs) + [EngineReply(e, EngineAfter(e, m, reqs), req)]
    decreases reqs
  {
    var all := reqs + [req];
    if reqs == [] {
      assert all[1..] == [];
    } else {
      hide EngineNext, EngineReply;
      assert all[0] == reqs[0] && all[1..] == reqs[1..] + [req];
      var m' := EngineNext(e, m, reqs[0]);
      Appended(e, m', reqs[1..], req);
      var end := EngineReply(e, EngineAfter(e, m, reqs), req);
      Reassociated([EngineReply(e, m, reqs[0])], EngineReplies(e, m', reqs[1..]), [end]);
    }
  }

  /** The reply to each request of a run is the one in the state that the requests before it lead to. */
  lemma {:induction false} RunAt(e: Engine, m: Contents, reqs: seq<Request>, i: nat)
    requires i < |reqs|
    ensures |EngineReplies(e, m, reqs)| == |reqs| && EngineAfter(e, m, []) == m
    ensures EngineReplies(e, m, reqs)[i] == EngineReply(e, EngineAfter(e, m, reqs[..i]), reqs[i])
    ensures EngineAfter(e, m, reqs[..i + 1]) == EngineNext(e, EngineAfter(e, m, reqs[..i]), reqs[i])
    decreases |reqs|
  {
    hide EngineReply, EngineNext;
    var n := |reqs| - 1;
    assert reqs[..n] + [reqs[n]] == reqs == reqs[..n + 1];
    Appended(e, m, reqs[..n], reqs[n]);
    if n > 0 {
      RunAt(e, m, reqs[..n], if i < n then i else 0);
      assert i < n ==> reqs[..n][..i] == reqs[..i] && reqs[..n][..i + 1] == reqs[..i + 1];
    }
  }

  /** The same for the finite map, which answers like the tree. */
  lemma MapRunAt(m: Contents, reqs: seq<Request>, i: nat)
    requires i < |reqs|
    ensures |Replies(m, reqs)| == |reqs| && After(m, []) == m
    ensures Replies(m, reqs)[i] == EngineReply(Tree, After(m, reqs[..i]), reqs[i])
    ensures After(m, reqs[..i + 1]) == EngineNext(Tree, After(m, reqs[..i]), reqs[i])
  {
    RunAt(Tree, m, reqs, i);
    Unlimited(Tree, m, reqs);
    Unlimited(Tree, m, reqs[..i]);
    Unlimited(Tree, m, reqs[..i + 1]);
  }

  /** Fewer keys than the array has slots at every request to set one. */
  predicate Room(m: Contents, reqs: seq<Request>)
    decreases reqs
  {
    reqs != [] ==> (reqs[0].Set? ==> |m| < ARRAY_SIZE) && Room(Next(m, reqs[0]), reqs[1..])
  }

  lemma CardinalityStep(m: Contents, req: Request)
    requires |m| <= ARRAY_SIZE && (req.Set? ==> |m| < ARRAY_SIZE)
    ensures |Next(m, req)| <= ARRAY_SIZE
  {
    if req.Set? {
      assert Next(m, req).Keys == m.Keys + {req.key};
    } else if req.Del? {
      assert Next(m, req).Keys == m.Keys - {req.key};
    }
  }

  /** An engine answers a run of requests like a finite map; the array does so exactly while it has room. */
  lemma {:induction false} EngineIsMap(e: Engine, m: Contents, reqs: seq<Request>)
    requires e == Plain ==> |m| <= ARRAY_SIZE
    ensures EngineReplies(e, m, reqs) == Replies(m, reqs) <==> (e == Plain ==> Room(m, reqs))
    ensures (e == Plain ==> Room(m, reqs)) ==> EngineAfter(e, m, reqs) == After(m, reqs)
    decreases reqs
  {
    if reqs != [] {
      var req := reqs[0];
      if Refused(e, m, req) {
        assert EngineReplies(e, m, reqs)[0] != Replies(m, reqs)[0];
      } else if e == Plain {
        CardinalityStep(m, req);
        EngineIsMap(e, Next(m, req), reqs[1..]);
        assert EngineReplies(e, m, reqs)[1..] == EngineReplies(e, Next(m, req), reqs[1..]);
        assert Replies(m, reqs)[1..] == Replies(Next(m, req), reqs[1..]);
      } else {
        Unlimited(e, m, reqs);
      }
    }
  }

  lemma {:induction false} Unlimited(e: Engine, m: Contents, reqs: seq<Request>)
    requires e != Plain
    ensures EngineReplies(e, m, reqs) == Replies(m, reqs) && EngineAfter(e, m, reqs) == After(m, reqs)
    decreases reqs
  {
    if reqs != [] {
      Unlimited(e, Next(m, reqs[0]), reqs[1..]);
    }
  }

  /** Sets the keys 0 to n - 1. */
  function FillRun(n: nat): seq<Request> {
    if n == 0 then [] else FillRun(n - 1) + [Set(Decimal(n - 1), "x")]
  }

  lemma {:induction false} RoomAppended(m: Contents, reqs: seq<Request>, req: Request)
    ensures Room(m, reqs + [req]) <==> Room(m, reqs) && (req.Set? ==> |After(m, reqs)| < ARRAY_SIZE)
    decreases reqs
  {
    var all := reqs + [req];
    if reqs == [] {
      assert all[1..] == [];
    } else {
      assert all[0] == reqs[0] && all[1..] == reqs[1..] + [req];
      RoomAppended(Next(m, reqs[0]), reqs[1..], req);
    }
  }

  /** There is room when the map has fewer than 1024 keys before each request to set one. */
  lemma {:induction false} RoomMeans(m: Contents, reqs: seq<Request>)
    ensures Room(m, reqs) <==> forall i :: 0 <= i < |reqs| && reqs[i].Set? ==> |After(m, reqs[..i])| < 1024
    decreases |reqs|
  {
    if reqs != [] {
      var n := |reqs| - 1;
      var init := reqs[..n];
      assert init + [reqs[n]] == reqs;
      RoomAppended(m, init, reqs[n]);
      RoomMeans(m, init);
      hide Room, After;
      assert forall i :: 0 <= i < n ==> reqs[i] == init[i] && reqs[..i] == init[..i];
    }
  }

  lemma {:induction false} AfterAppended(m: Contents, reqs: seq<Request>, req: Request)
    ensures After(m, reqs + [req]) == Next(After(m, reqs), req)
    decreases reqs
  {
    var all := reqs + [req];
    if reqs == [] {
      assert all[1..] == [];
    } else {
      hide Next;
      assert all[0] == reqs[0] && all[1..] == reqs[1..] + [req];
      AfterAppended(Next(m, reqs[0]), reqs[1..], req);
    }
  }

  /** Up to the size of the array there is room for n keys, and then the map has n. */
  lemma {:induction false} Filled(n: nat)
    requires n <= ARRAY_SIZE
    ensures Room(map[], FillRun(n))
    ensures var m := After(map[], FillRun(n)); |m| == n && forall k: nat :: Decimal(k) in m <==> k < n
  {
    if n > 0 {
      var reqs, req := FillRun(n - 1), Set(Decimal(n - 1), "x");
      Filled(n - 1);
      RoomAppended(map[], reqs, req);
      AfterAppended(map[], reqs, req);
      hide After, Room, Decimal, Value;
      forall k: nat | Decimal(k) == Decimal(n - 1) ensures k == n - 1 {
        DecimalReads(k);
        DecimalReads(n - 1);
      }
    }
  }

  /** A run from the empty store where the array differs: it is full, and refuses to update a key that it holds. */
  lemma FullArrayDiffers(n: nat, k: nat, value: CString)
    requires n == 1024 && k < n
    ensures var reqs, req := FillRun(n), Set(Decimal(k), value);
      && Room(map[], reqs) && !Room(map[], reqs + [req])
      && Decimal(k) in EngineAfter(Plain, map[], reqs)
      && EngineReplies(Plain, map[], reqs + [req]) == Replies(map[], reqs) + ["ERROR"]
      && EngineReplies(Tree, map[], reqs + [req]) == Replies(map[], reqs) + ["SUCCESS"]
      && EngineReplies(Table, map[], reqs + [req]) == Replies(map[], reqs) + ["SUCCESS"]
  {
    var reqs, req := FillRun(n), Set(Decimal(k), value);
    Filled(n);
    RoomAppended(map[], reqs, req);
    forall e
      ensures EngineReplies(e, map[], reqs) == Replies(map[], reqs)
      ensures EngineAfter(e, map[], reqs) == After(map[], reqs)
    {
      EngineIsMap(e, map[], reqs);
    }
    Appended(Plain, map[], reqs, req);
    Appended(Tree, map[], reqs, req);
    Appended(Table, map[], reqs, req);
  }

  /** A deleted key does not exist any more, in every engine and whatever was stored. */
  lemma GoneAfterDel(e: Engine, m: Contents, key: CString)
    ensures var m' := EngineNext(e, m, Del(key));
      EngineReply(e, m', Get(key)) == EngineReply(e, m', Exist(key)) == EngineReply(e, m', Del(key)) == "NO EXIST"
  {
  }

  /**
   A key that was just set has its value, cut to the reply buffer, unless the array was full; other keys are as
   before.
   */
  lemma GetAfterSet(e: Engine, m: Contents, key: CString, value: CString, other: CString)
    ensures var m' := EngineNext(e, m, Set(key, value));
      && (EngineReply(e, m, Set(key, value)) == "SUCCESS" ==>
        EngineReply(e, m', Get(key)) == if |value| < 1024 then value else value[..1023])
      && (EngineReply(e, m, Set(key, value)) != "SUCCESS" ==> m' == m)
      && (other != key ==> EngineReply(e, m', Get(other)) == EngineReply(e, m, Get(other)))
  {
  }

  // ---------------------------------------------------------------- the interpreter

  /** The position of a command in the table. */
  function Index(e: Engine, req: Request): nat {
    (match e case Plain => 0 case Tree => 5 case Table => 10)
    + (match req case Set(_, _) => 0 case Get(_) => 1 case Del(_) => 2 case Count => 3 case Exist(_) => 4)
  }

  /** The characters that tell the commands apart. */
  function Mark(s: string): (char, char)
    requires |s| >= 2
  {
    (s[0], if s[0] in {'R', 'H'} then s[1] else ' ')
  }

  lemma CommandIndex(e: Engine, req: Request, cmd: nat)
    requires cmd < |COMMANDS|
    ensures COMMANDS[cmd] == Command(e, req) <==> cmd == Index(e, req)
  {
    assert |Command(e, req)| >= 2 && |COMMANDS[cmd]| >= 2;
    assert Mark(COMMANDS[cmd]) == Mark(Command(e, req)) ==> cmd == Index(e, req);
  }

  /** The table has the commands of the engines and no others. */
  lemma CommandsKnown(token: string)
    ensures token in COMMANDS <==> exists e, req :: token == Command(e, req)
  {
    if i: nat :| i < |COMMANDS| && COMMANDS[i] == token {
      CommandAt(i);
    }
    forall e, req | token == Command(e, req) ensures token in COMMANDS {
      CommandIn(e, req);
    }
    hide Command, COMMANDS;
  }

  lemma CommandAt(i: nat)
    requires i < |COMMANDS|
    ensures exists e, req :: COMMANDS[i] == Command(e, req)
  {
    CommandIndex(if i < 5 then Plain else if i < 10 then Tree else Table, Verb(i % 5), i);
  }

  lemma CommandIn(e: Engine, req: Request)
    ensures Command(e, req) in COMMANDS
  {
    CommandIndex(e, req, Index(e, req));
  }

  function Verb(i: nat): Request {
    if i == 0 then Set("", "") else if i == 1 then Get("") else if i == 2 then Del("")
    else if i == 3 then Count else Exist("")
  }

  /** No engine has a command to modify a value. */
  lemma NoModify(e: Engine)
    ensures (match e case Plain => "" case Tree => "R" case Table => "H") + "MOD" !in COMMANDS
  {
    var prefix := match e case Plain => "" case Tree => "R" case Table => "H";
    forall i | 0 <= i < |COMMANDS| ensures COMMANDS[i] != prefix + "MOD" {
      assert |COMMANDS[i]| >= 2 && Mark(COMMANDS[i]) != Mark(prefix + "MOD");
    }
  }

  lemma SetReply(e: Engine, m: Contents, key: CString, value: CString)
    ensures forall m' :: EngineNext(e, m', Get(key)) == m'
    ensures var reply := EngineReply(e, m, Set(key, value)); reply == "SUCCESS" || (reply == "ERROR" && e == Plain)
  {
  }

  /** The lines of one turn, for the three engines. */
  datatype Turn = Turn(plain: CString, tree: CString, table: CString)

  /** The hash engine can be asked about this key. */
  predicate KeyHashable(req: Request) {
    req.Count? || Hashable(req.key)
  }

  class Store {
    const plain: ArrayEngine
    const tree: RbTree
    const table: HashEngine
    var reply: string

    ghost predicate Valid()
      reads this, plain, plain.table, tree, tree.nodes, tree.nil, tree.order, table, table.nodes, table.all
    {
      plain.Valid() && tree.KvValid() && table.Valid()
    }

    /** The map that an engine holds. */
    ghost function State(e: Engine): Contents
      requires Valid()
      reads this, plain, plain.table, tree, tree.nodes, tree.nil, tree.order, table, table.nodes, table.all
    {
      match e
      case Plain => plain.Contents()
      case Tree => tree.Contents()
      case Table => table.contents
    }

    constructor Init()
      ensures Valid() && forall e :: State(e) == map[]
      ensures fresh(plain) && fresh(plain.table) && fresh(tree) && fresh(tree.nodes) && fresh(tree.nil)
      ensures fresh(table) && fresh(table.nodes) && fresh(table.all)
    {
      plain := new ArrayEngine.Create();
      tree := new RbTree.Create();
      table := new HashEngine.Create();
      reply := "";
    }

    method HandlePlain(cmd: nat, tokens: seq<CString>, ghost req: Request)
      requires plain.Valid() && Asks(tokens, Plain, req) && cmd == Index(Plain, req)
      modifies this`reply, plain, plain.table
      ensures plain.Valid() && reply == EngineReply(Plain, old(plain.Contents()), req)
      ensures plain.Contents() == EngineNext(Plain, old(plain.Contents()), req)
    {
      hide ToMap, Decimal, Unique;
      if cmd == 0 {
        var ret := plain.Set(tokens[1], tokens[2]);
        reply := if ret == 0 then "SUCCESS" else "ERROR";
      } else if cmd == 1 {
        var ret := plain.Exist(tokens[1]);
        if ret >= 0 {
          var value := plain.Get(tokens[1]);
          reply := if value.Some? then Truncated(value.value) else "ERROR";
        } else {
          reply := "NO EXIST";
        }
      } else if cmd == 2 {
        var ret := plain.Exist(tokens[1]);
        if ret >= 0 {
          ret := plain.Del(tokens[1]);
          reply := if ret == 0 then "SUCCESS" else "ERROR";
        } else {
          reply := "NO EXIST";
        }
      } else if cmd == 4 {
        var ret := plain.Exist(tokens[1]);
        reply := if ret >= 0 then "EXISTED" else "NO EXIST";
      } else {
        var ret := plain.Count();
        reply := if ret < 0 then "ERROR" else Truncated(Decimal(ret));
      }
    }

    /** RDEL */
    method TreeDel(key: CString)
      requires tree.KvValid()
      modifies this`reply, tree, tree.nodes, tree.nil`parent, tree.nil`color
      ensures tree.KvValid() && reply == Reply(old(tree.Contents()), Del(key))
      ensures forall n :: n in tree.nodes && n !in old(tree.nodes) ==> fresh(n)
      ensures tree.Contents() == Next(old(tree.Contents()), Del(key))
    {
      hide RbTree.KvValid, RbTree.Contents;
      var ret := tree.Exist(key);
      if ret >= 0 {
        ret := tree.Del(key);
        reply := if ret == 0 then "SUCCESS" else "ERROR";
      } else {
        reply := "NO EXIST";
      }
    }

    method HandleTree(cmd: nat, tokens: seq<CString>, ghost req: Request)
      requires tree.KvValid() && Asks(tokens, Tree, req) && cmd == Index(Tree, req)
      modifies this`reply, tree, tree.nodes, tree.nil`parent, tree.nil`color
      ensures tree.KvValid() && reply == EngineReply(Tree, old(tree.Contents()), req)
      ensures forall n :: n in tree.nodes && n !in old(tree.nodes) ==> fresh(n)
      ensures tree.Contents() == EngineNext(Tree, old(tree.Contents()), req)
    {
      hide Decimal, Truncated, RbTree.KvValid, RbTree.Contents;
      if cmd == 5 {
        var ret := tree.Set(tokens[1], tokens[2]);
        reply := if ret == 0 then "SUCCESS" else "ERROR";
      } else if cmd == 6 {
        var ret := tree.Exist(tokens[1]);
        if ret >= 0 {
          var value := tree.Get(tokens[1]);
          reply := if value.Some? then Truncated(value.value) else "ERROR";
        } else {
          reply := "NO EXIST";
        }
      } else if cmd == 7 {
        TreeDel(tokens[1]);
      } else if cmd == 9 {
        var ret := tree.Exist(tokens[1]);
        reply := if ret >= 0 then "EXISTED" else "NO EXIST";
      } else {
        var ret := tree.Count();
        reply := if ret < 0 then "ERROR" else Truncated(Decimal(ret));
      }
    }

    method HandleTable(cmd: nat, tokens: seq<CString>, ghost req: Request)
      requires table.Valid() && Asks(tokens, Table, req) && cmd == Index(Table, req)
      requires KeyHashable(req)
      modifies this`reply, table, table.nodes, table.all
      ensures table.Valid() && reply == EngineReply(Table, old(table.contents), req)
      ensures forall n :: n in table.all && n !in old(table.all) ==> fresh(n)
      ensures table.contents == EngineNext(Table, old(table.contents), req)
    {
      hide Decimal, HashEngine.Valid, Hashable;
      if cmd == 10 {
        var ret := table.Put(tokens[1], tokens[2]);
        reply := if ret == 0 then "SUCCESS" else "ERROR";
      } else if cmd == 11 {
        var ret := table.Exist(tokens[1]);
        if ret >= 0 {
          var value := table.Get(tokens[1]);
          reply := if value.Some? then Truncated(value.value) else "ERROR";
        } else {
          reply := "NO EXIST";
        }
      } else if cmd == 12 {
        var ret := table.Exist(tokens[1]);
        if ret >= 0 {
          ret := table.Delete(tokens[1]);
          reply := if ret == 0 then "SUCCESS" else "ERROR";
        } else {
          reply := "NO EXIST";
        }
      } else if cmd == 14 {
        var ret := table.Exist(tokens[1]);
        reply := if ret >= 0 then "EXISTED" else "NO EXIST";
      } else {
        var ret := table.Count();
        reply := if ret < 0 then "ERROR" else Truncated(Decimal(ret));
      }
    }

    /** The position of a command in the table, or the length of the table. */
    static method FindCommand(token: CString, ghost ask: Option<(Engine, Request)>) returns (cmd: nat)
      requires match ask case None => token !in COMMANDS case Some(a) => token == Command(a.0, a.1)
      ensures match ask
        case None => cmd == 15
        case Some(a) => cmd == Index(a.0, a.1) && match a.0
          case Plain => cmd < 5
          case Tree => 5 <= cmd < 10
          case Table => 10 <= cmd < 15
    {
      cmd := 0;
      while cmd < |COMMANDS|
        invariant 0 <= cmd <= |COMMANDS|
        invariant forall i :: 0 <= i < cmd ==> COMMANDS[i] != token
      {
        StrCmpEqual(COMMANDS[cmd], token);
        if StrCmp(COMMANDS[cmd], token) == 0 {
          break;
        }
        cmd := cmd + 1;
      }
      if ask.Some? {
        CommandIndex(ask.value.0, ask.value.1, Index(ask.value.0, ask.value.1));
        if cmd < |COMMANDS| {
          CommandIndex(ask.value.0, ask.value.1, cmd);
        }
      }
    }

    /** The search of the command table, and the branch of the command. */
    method Dispatch(tokens: seq<CString>, ghost ask: Option<(Engine, Request)>)
      requires Valid() && tokens != []
      requires match ask
        case None => tokens[0] !in COMMANDS
        case Some(a) => Asks(tokens, a.0, a.1) && (a.0 == Table ==> KeyHashable(a.1))
      modifies this`reply, plain, plain.table, tree, tree.nodes, tree.nil`parent, tree.nil`color
      modifies table, table.nodes, table.all
      ensures Valid()
      ensures forall n :: n in tree.nodes && n !in old(tree.nodes) ==> fresh(n)
      ensures forall n :: n in table.all && n !in old(table.all) ==> fresh(n)
      ensures reply == match ask case None => "NO MATCH" case Some(a) => EngineReply(a.0, old(State(a.0)), a.1)
      ensures forall e ::
        State(e) == if ask.Some? && ask.value.0 == e then EngineNext(e, old(State(e)), ask.value.1) else old(State(e))
    {
      hide RbTree.KvValid, RbTree.Contents, HashEngine.Valid, ArrayEngine.Valid, ArrayEngine.Contents, Decimal;
      hide Hashable, EngineReply, EngineNext;
      var cmd := FindCommand(tokens[0], ask);
      hide Asks, Index, KeyHashable;
      if cmd < 5 {
        HandlePlain(cmd, tokens, ask.value.1);
      } else if cmd < 10 {
        HandleTree(cmd, tokens, ask.value.1);
      } else if cmd < 15 {
        HandleTable(cmd, tokens, ask.value.1);
      } else {
        reply := "NO MATCH";
      }
    }

    /** One request: `ask` is what the tokens ask for, or nothing when the first token is no command. */
    method Handle(tokens: seq<CString>, ghost ask: Option<(Engine, Request)>)
      requires Valid() && tokens != []
      requires match ask
        case None => tokens[0] !in COMMANDS
        case Some(a) => Asks(tokens, a.0, a.1) && (a.0 == Table ==> KeyHashable(a.1))
      modifies this`reply, plain, plain.table, tree, tree.nodes, tree.nil`parent, tree.nil`color
      modifies table, table.nodes, table.all
      ensures Valid()
      ensures forall n :: n in tree.nodes && n !in old(tree.nodes) ==> fresh(n)
      ensures forall n :: n in table.all && n !in old(table.all) ==> fresh(n)
      ensures reply == match ask case None => "NO MATCH" case Some(a) => EngineReply(a.0, old(State(a.0)), a.1)
      ensures ask.Some? ==> var (e, m) := (ask.value.0, old(State(ask.value.0)));
        match ask.value.1
        case Set(k, v) =>
          if e == Plain && |m| == 1024 then reply == "ERROR" && State(e) == m
          else reply == "SUCCESS" && State(e) == m[k := v]
        case Get(k) =>
          reply == if k !in m then "NO EXIST" else if |m[k]| < 1024 then m[k] else m[k][..1023]
        case Del(k) => reply == (if k in m then "SUCCESS" else "NO EXIST") && State(e) == m - {k}
        case Count => |m| < 0x8000_0000 ==> Digits(reply) && Value(reply) == |m|
        case Exist(k) => reply == if k in m then "EXISTED" else "NO EXIST"
      ensures forall e ::
        State(e) == if ask.Some? && ask.value.0 == e then EngineNext(e, old(State(e)), ask.value.1) else old(State(e))
    {
      hide Valid, State, Hashable, EngineReply, EngineNext, Digits, Value, Asks, KeyHashable;
      if ask.Some? {
        ReplyTexts(ask.value.0, State(ask.value.0), ask.value.1);
      }
      Dispatch(tokens, ask);
    }

    /** A received line: without a token the last reply stays; otherwise the tokens are handled. */
    method Serve(msg: CString, ghost ask: Option<(Engine, Request)>)
      requires Valid()
      requires Words(msg) != [] ==> match ask
        case None => Words(msg)[0] !in COMMANDS
        case Some(a) => Asks(Words(msg), a.0, a.1) && (a.0 == Table ==> KeyHashable(a.1))
      modifies this`reply, plain, plain.table, tree, tree.nodes, tree.nil`parent, tree.nil`color
      modifies table, table.nodes, table.all
      ensures Valid()
      ensures forall n :: n in tree.nodes && n !in old(tree.nodes) ==> fresh(n)
      ensures forall n :: n in table.all && n !in old(table.all) ==> fresh(n)
      ensures reply == if Words(msg) == [] then old(reply) else match ask
        case None => "NO MATCH"
        case Some(a) => EngineReply(a.0, old(State(a.0)), a.1)
      ensures forall e ::
        State(e) ==
          if Words(msg) != [] && ask.Some? && ask.value.0 == e then EngineNext(e, old(State(e)), ask.value.1)
          else old(State(e))
    {
      hide Valid, State, Hashable, EngineReply, EngineNext, Words, Asks;
      var tokens := SplitToken(msg);
      if |tokens| != 0 {
        Handle(tokens, ask);
      }
    }

    /** A client's line is taken apart into the request it was made from. */
    static lemma LineAsks(e: Engine, req: Request)
      requires forall i :: 0 <= i < |Arguments(req)| ==> IsWord(Arguments(req)[i])
      ensures Words(Joined(Tokens(e, req))) == Tokens(e, req) && Asks(Words(Joined(Tokens(e, req))), e, req)
    {
      assert IsWord(Command(e, req));
      WordsJoined(Tokens(e, req));
    }

    /** The lines of the protocol. */
    static lemma RequestLine(e: Engine, req: Request)
      ensures Joined(Tokens(e, req)) == (match e case Plain => "" case Tree => "R" case Table => "H")
        + (match req
          case Set(k, v) => "SET" + " " + (k + (" " + v))
          case Get(k) => "GET" + " " + k
          case Del(k) => "DEL" + " " + k
          case Count => "COUNT"
          case Exist(k) => "EXIST" + " " + k)
    {
      var p := match e case Plain => "" case Tree => "R" case Table => "H";
      var tokens := Tokens(e, req);
      hide Joined;
      match req
      case Count => assert tokens == [p + "COUNT"]; JoinedOne(p + "COUNT");
      case Set(k, v) => assert tokens == [p + "SET", k, v]; JoinedThree(p, "SET", k, v);
      case Get(k) => assert tokens == [p + "GET", k]; JoinedTwo(p, "GET", k);
      case Del(k) => assert tokens == [p + "DEL", k]; JoinedTwo(p, "DEL", k);
      case Exist(k) => assert tokens == [p + "EXIST", k]; JoinedTwo(p, "EXIST", k);
    }

    /** The tokens of a request. */
    static function Tokens(e: Engine, req: Request): (tokens: seq<CString>)
      ensures Asks(tokens, e, req)
    {
      [Command(e, req)] + Arguments(req)
    }

    /** A value that was set is what the next get answers, cut to the reply buffer; a refused one changes nothing. */
    method SetThenGet(e: Engine, key: CString, value: CString) returns (a: string, b: string)
      requires Valid() && (e == Table ==> Hashable(key))
      modifies this`reply, plain, plain.table, tree, tree.nodes, tree.nil`parent, tree.nil`color
      modifies table, table.nodes, table.all
      ensures Valid() && (a == "SUCCESS" || (a == "ERROR" && e == Plain))
      ensures a == "SUCCESS" ==> b == if |value| < 1024 then value else value[..1023]
      ensures a == "SUCCESS" || forall f :: State(f) == old(State(f))
    {
      hide Valid, State, Hashable, EngineReply, EngineNext;
      GetAfterSet(e, State(e), key, value, key);
      SetReply(e, State(e), key, value);
      Handle(Tokens(e, Set(key, value)), Some((e, Set(key, value))));
      a := reply;
      Handle(Tokens(e, Get(key)), Some((e, Get(key))));
      b := reply;
    }

    /** The line asks the engine `e` for `req`. */
    static ghost predicate Says(line: CString, e: Engine, req: Request) {
      Asks(Words(line), e, req)
    }

    /** The lines of a turn ask the three engines for the same request. */
    static ghost predicate SaysAll(turn: Turn, req: Request) {
      Says(turn.plain, Plain, req) && Says(turn.tree, Tree, req) && Says(turn.table, Table, req)
    }

    /** One request put to the three engines in turn, each with the line that asks for it. */
    method Ask(turn: Turn, ghost req: Request) returns (a: string, r: string, h: string)
      requires Valid() && KeyHashable(req) && SaysAll(turn, req)
      modifies this`reply, plain, plain.table, tree, tree.nodes, tree.nil`parent, tree.nil`color
      modifies table, table.nodes, table.all
      ensures Valid()
      ensures forall n :: n in tree.nodes && n !in old(tree.nodes) ==> fresh(n)
      ensures forall n :: n in table.all && n !in old(table.all) ==> fresh(n)
      ensures a == EngineReply(Plain, old(State(Plain)), req)
      ensures r == EngineReply(Tree, old(State(Tree)), req)
      ensures h == EngineReply(Table, old(State(Table)), req)
      ensures forall e :: State(e) == EngineNext(e, old(State(e)), req)
    {
      hide Valid, State, Hashable, EngineReply, EngineNext, Words;
      Serve(turn.plain, Some((Plain, req)));
      a := reply;
      Serve(turn.tree, Some((Tree, req)));
      r := reply;
      Serve(turn.table, Some((Table, req)));
      h := reply;
    }

    /** Each engine answers a run of received lines as its own step function answers what they ask for. */
    method RunAll(turns: seq<Turn>, ghost reqs: seq<Request>) returns (a: seq<string>, r: seq<string>, h: seq<string>)
      requires Valid() && |turns| == |reqs|
      requires forall i :: 0 <= i < |reqs| ==> KeyHashable(reqs[i]) && SaysAll(turns[i], reqs[i])
      modifies this`reply, plain, plain.table, tree, tree.nodes, tree.nil`parent, tree.nil`color
      modifies table, table.nodes, table.all
      ensures Valid()
      ensures State(Plain) == EngineAfter(Plain, old(State(Plain)), reqs)
      ensures State(Tree) == EngineAfter(Tree, old(State(Tree)), reqs)
      ensures State(Table) == EngineAfter(Table, old(State(Table)), reqs)
      ensures a == EngineReplies(Plain, old(State(Plain)), reqs)
      ensures r == EngineReplies(Tree, old(State(Tree)), reqs)
      ensures h == EngineReplies(Table, old(State(Table)), reqs)
    {
      hide Valid, State, Hashable, EngineReply, EngineNext, KeyHashable, EngineReplies, EngineAfter, SaysAll;
      a, r, h := [], [], [];
      ghost var p, q, s := State(Plain), State(Tree), State(Table);
      Nothing(p);
      Nothing(q);
      Nothing(s);
      var i := 0;
      while i < |turns|
        invariant 0 <= i <= |turns| && Valid()
        invariant forall n :: n in tree.nodes && n !in old(tree.nodes) ==> fresh(n)
        invariant forall n :: n in table.all && n !in old(table.all) ==> fresh(n)
        invariant State(Plain) == EngineAfter(Plain, p, reqs[..i]) && a == EngineReplies(Plain, p, reqs[..i])
        invariant State(Tree) == EngineAfter(Tree, q, reqs[..i]) && r == EngineReplies(Tree, q, reqs[..i])
        invariant State(Table) == EngineAfter(Table, s, reqs[..i]) && h == EngineReplies(Table, s, reqs[..i])
      {
        var a1, r1, h1 := Ask(turns[i], reqs[i]);
        Appended(Plain, p, reqs[..i], reqs[i]);
        Appended(Tree, q, reqs[..i], reqs[i]);
        Appended(Table, s, reqs[..i], reqs[i]);
        assert reqs[..i + 1] == reqs[..i] + [reqs[i]];
        a, r, h, i := a + [a1], r + [r1], h + [h1], i + 1;
      }
      assert reqs[..i] == reqs;
    }

    /** Lines that put the same requests to the three engines in turn, one request at a time. */
    method Lockstep(turns: seq<Turn>, ghost reqs: seq<Request>)
      returns (a: seq<string>, r: seq<string>, h: seq<string>)
      requires Valid() && State(Plain) == State(Tree) == State(Table) && |turns| == |reqs|
      requires forall i :: 0 <= i < |reqs| ==> KeyHashable(reqs[i]) && SaysAll(turns[i], reqs[i])
      modifies this`reply, plain, plain.table, tree, tree.nodes, tree.nil`parent, tree.nil`color
      modifies table, table.nodes, table.all
      ensures Valid()
      ensures r == h == Replies(old(State(Tree)), reqs)
      ensures a == r <==> Room(old(State(Tree)), reqs)
      ensures State(Tree) == State(Table) == After(old(State(Tree)), reqs)
      ensures a == r ==> State(Plain) == State(Tree)
    {
      hide Valid, State, KeyHashable, EngineReplies, EngineAfter, SaysAll;
      ghost var m0 := State(Tree);
      PlainSize();
      a, r, h := RunAll(turns, reqs);
      EngineIsMap(Plain, m0, reqs);
      EngineIsMap(Tree, m0, reqs);
      EngineIsMap(Table, m0, reqs);
    }

    /** The lines that a client sends to put one request to the three engines. */
    static function TurnOf(req: Request): Turn {
      Turn(Joined(Tokens(Plain, req)), Joined(Tokens(Tree, req)), Joined(Tokens(Table, req)))
    }

    /** A client that sends requests, made of words, to the three engines in turn. */
    method LockstepClient(reqs: seq<Request>) returns (a: seq<string>, r: seq<string>, h: seq<string>)
      requires Valid() && State(Plain) == State(Tree) == State(Table)
      requires forall i :: 0 <= i < |reqs| ==>
        KeyHashable(reqs[i]) && forall j :: 0 <= j < |Arguments(reqs[i])| ==> IsWord(Arguments(reqs[i])[j])
      modifies this`reply, plain, plain.table, tree, tree.nodes, tree.nil`parent, tree.nil`color
      modifies table, table.nodes, table.all
      ensures Valid()
      ensures r == h == Replies(old(State(Tree)), reqs)
      ensures a == r <==> Room(old(State(Tree)), reqs)
      ensures State(Tree) == State(Table) == After(old(State(Tree)), reqs)
      ensures a == r ==> State(Plain) == State(Tree)
    {
      hide Valid, State, KeyHashable, Room, Replies;
      var turns := seq(|reqs|, i requires 0 <= i < |reqs| => TurnOf(reqs[i]));
      forall i | 0 <= i < |reqs| ensures SaysAll(turns[i], reqs[i]) {
        LineAsks(Plain, reqs[i]);
        LineAsks(Tree, reqs[i]);
        LineAsks(Table, reqs[i]);
      }
      hide SaysAll, IsWord, Arguments;
      a, r, h := Lockstep(turns, reqs);
    }

    lemma PlainSize()
      requires Valid()
      ensures |State(Plain)| <= ARRAY_SIZE
    {
      ToMapSize(plain.pairs);
    }
  }
}
