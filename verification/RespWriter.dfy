/** Commands in the Redis protocol: an array of bulk strings, from an argument vector or from a template. */
module RespWriter {
  import opened Bytes
  import opened Decimal
  import opened RespGrammar
  import opened RespStream

  const STAR := 42
  const DOLLAR := 36
  const PERCENT := 37
  const SPACE := 32

  function CrLf(): seq<byte> { [CR, LF] }

  function ArgBytes(a: seq<byte>): seq<byte> {
    [DOLLAR] + Digits(|a|) + CrLf() + a + CrLf()
  }

  function ArgsBytes(args: seq<seq<byte>>): seq<byte> {
    if args == [] then [] else ArgBytes(args[0]) + ArgsBytes(args[1..])
  }

  function CommandBytes(args: seq<seq<byte>>): seq<byte> {
    [STAR] + Digits(|args|) + CrLf() + ArgsBytes(args)
  }

  function Bulks(args: seq<seq<byte>>): (r: seq<Reply>)
    ensures |r| == |args| && forall k :: 0 <= k < |r| ==> r[k] == Bulk(args[k])
  {
    seq(|args|, k requires 0 <= k < |args| => Bulk(args[k]))
  }

  // ---------- Reading a written command ----------

  /** A numeral followed by a line end is read as a line. */
  lemma NumeralLine(n: nat, rest: seq<byte>)
    ensures Line(Digits(n) + CrLf() + rest) == Got(Digits(n), rest)
  {
    var s, k := Digits(n) + CrLf() + rest, |Digits(n)|;
    assert CrLfAt(s, k);
    assert forall j :: 0 <= j < k ==> s[j] == Digits(n)[j] && !CrLfAt(s, j);
    var m := LineEnd(s, 0);
    assert s[..k] == Digits(n) && s[k + 2..] == rest;
  }

  lemma ParseArg(c: Config, a: seq<byte>, d: nat, t: seq<byte>)
    requires |a| <= LLONG_MAX
    ensures Parse(c, ArgBytes(a) + t, d) == Got(Bulk(a), t)
  {
    var s := ArgBytes(a) + t;
    var body := a + CrLf() + t;
    assert s[1..] == Digits(|a|) + CrLf() + body;
    NumeralLine(|a|, body);
    ParseShow(|a|);
    assert body[..|a|] == a && body[|a| + 2..] == t;
  }

  lemma {:induction false} ParseArgs(c: Config, args: seq<seq<byte>>, d: nat, t: seq<byte>)
    requires forall k :: 0 <= k < |args| ==> |args[k]| <= LLONG_MAX
    ensures ParseN(c, ArgsBytes(args) + t, d, |args|) == Got(Bulks(args), t)
    decreases |args|
  {
    if args == [] {
      assert [] + t == t;
    } else {
      var rest := ArgsBytes(args[1..]);
      ConcatAssoc(ArgBytes(args[0]), rest, t);
      ParseArg(c, args[0], d, rest + t);
      ParseArgs(c, args[1..], d, t);
      assert [Bulk(args[0])] + Bulks(args[1..]) == Bulks(args);
    }
  }

  /** A written command reads back as one array of bulk strings, whatever bytes the arguments hold. */
  lemma ParseCommand(c: Config, args: seq<seq<byte>>, t: seq<byte>)
    requires |args| <= c.maxElements && |args| <= LLONG_MAX
    requires forall k :: 0 <= k < |args| ==> |args[k]| <= LLONG_MAX
    ensures Parse(c, CommandBytes(args) + t, 0) == Got(Aggregate(Array, Bulks(args)), t)
  {
    var s := CommandBytes(args) + t;
    var body := ArgsBytes(args) + t;
    assert s[1..] == Digits(|args|) + CrLf() + body;
    NumeralLine(|args|, body);
    ParseShow(|args|);
    ParseArgs(c, args, 1, t);
  }

  /** Commands sent back to back come out one reply each, in order. */
  lemma {:induction false} StreamOfCommands(c: Config, commands: seq<seq<seq<byte>>>)
    requires forall i :: 0 <= i < |commands| ==> |commands[i]| <= c.maxElements && |commands[i]| <= LLONG_MAX
    requires forall i, k :: 0 <= i < |commands| && 0 <= k < |commands[i]| ==> |commands[i][k]| <= LLONG_MAX
    ensures Stream(c, Pipeline(commands)) == (Echoes(commands), Healthy)
    decreases |commands|
  {
    hide CommandBytes, Bulks, Parse;
    if commands == [] {
      NothingToRead(c);
    } else {
      ParseCommand(c, commands[0], Pipeline(commands[1..]));
      StreamOfCommands(c, commands[1..]);
      assert Echoes(commands) == [Aggregate(Array, Bulks(commands[0]))] + Echoes(commands[1..]);
    }
  }

  lemma NothingToRead(c: Config)
    ensures Stream(c, []) == ([], Healthy)
  {
  }

  /** Each command as the reply it reads back as. */
  function Echoes(commands: seq<seq<seq<byte>>>): seq<Reply> {
    seq(|commands|, i requires 0 <= i < |commands| => Aggregate(Array, Bulks(commands[i])))
  }

  function Pipeline(commands: seq<seq<seq<byte>>>): seq<byte> {
    if commands == [] then [] else CommandBytes(commands[0]) + Pipeline(commands[1..])
  }

  // ---------- Writing ----------

  /** The length that any argument of this many bytes takes in a command. */
  method BulkLen(len: nat) returns (n: nat)
    ensures forall a: seq<byte> {:trigger ArgBytes(a)} :: |a| == len ==> n == |ArgBytes(a)|
  {
    var digits := CountDigits(len);
    n := 1 + digits + 2 + len + 2;
  }

  /** Stores `s` at `pos` and advances; stands for sprintf and memcpy of known bytes. */
  method Store(cmd: array<byte>, pos: nat, s: seq<byte>) returns (next: nat)
    requires pos + |s| <= cmd.Length
    modifies cmd
    ensures next == pos + |s| && cmd[..next] == old(cmd[..pos]) + s
  {
    for i := 0 to |s|
      invariant cmd[..pos + i] == old(cmd[..pos]) + s[..i]
    {
      cmd[pos + i] := s[i];
    }
    next := pos + |s|;
  }

  lemma {:induction false} ArgsBytesAppend(args: seq<seq<byte>>, k: nat)
    requires k < |args|
    ensures ArgsBytes(args[..k + 1]) == ArgsBytes(args[..k]) + ArgBytes(args[k])
    decreases |args|
  {
    assert args[..k + 1][1..] == args[1..][..k];
    if k > 0 {
      assert args[..k][1..] == args[1..][..k - 1];
      ArgsBytesAppend(args[1..], k - 1);
      ConcatAssoc(ArgBytes(args[0]), ArgsBytes(args[1..][..k - 1]), ArgBytes(args[k]));
    }
  }

  /** The length computed up front from digit counts. */
  method TotalLength(args: seq<seq<byte>>) returns (totlen: nat)
    ensures totlen == |CommandBytes(args)|
  {
    var digits := CountDigits(|args|);
    totlen := 1 + digits + 2;
    for j := 0 to |args|
      invariant totlen == 1 + |Digits(|args|)| + 2 + |ArgsBytes(args[..j])|
    {
      ArgsBytesAppend(args, j);
      var n := BulkLen(|args[j]|);
      totlen := totlen + n;
    }
    assert args[..|args|] == args;
  }

  /** Writes one argument. */
  method StoreArg(cmd: array<byte>, pos: nat, a: seq<byte>) returns (next: nat)
    requires pos + |ArgBytes(a)| <= cmd.Length
    modifies cmd
    ensures next == pos + |ArgBytes(a)| && cmd[..next] == old(cmd[..pos]) + ArgBytes(a)
  {
    next := Store(cmd, pos, [DOLLAR] + Digits(|a|) + CrLf());
    next := Store(cmd, next, a);
    next := Store(cmd, next, CrLf());
  }

  lemma {:induction false} ArgsBytesRoom(args: seq<seq<byte>>, k: nat)
    requires k < |args|
    ensures |ArgsBytes(args[..k])| + |ArgBytes(args[k])| <= |ArgsBytes(args)|
    decreases |args|
  {
    if k > 0 {
      assert args[..k][1..] == args[1..][..k - 1];
      ArgsBytesRoom(args[1..], k - 1);
    }
  }

  lemma NoArgs(args: seq<seq<byte>>)
    ensures ArgsBytes(args[..0]) == []
  {
  }

  /** A command in a fresh buffer with a closing zero; the precomputed length is what gets written. */
  method FormatCommandArgv(args: seq<seq<byte>>) returns (cmd: array<byte>, totlen: nat)
    requires |CommandBytes(args)| <= INT_MAX
    ensures fresh(cmd) && cmd.Length == totlen + 1
    ensures totlen == |CommandBytes(args)| && cmd[..totlen] == CommandBytes(args) && cmd[totlen] == 0
  {
    hide ArgsBytes, ArgBytes, Digits;
    NoArgs(args);
    totlen := TotalLength(args);
    cmd := new byte[totlen + 1];
    ghost var head := [STAR] + Digits(|args|) + CrLf();
    var pos := Store(cmd, 0, [STAR] + Digits(|args|) + CrLf());
    for j := 0 to |args|
      invariant pos == |head| + |ArgsBytes(args[..j])| <= totlen
      invariant cmd[..pos] == head + ArgsBytes(args[..j])
    {
      ArgsBytesAppend(args, j);
      ArgsBytesRoom(args, j);
      pos := StoreArg(cmd, pos, args[j]);
    }
    assert args[..|args|] == args;
    cmd[pos] := 0;
  }
}
