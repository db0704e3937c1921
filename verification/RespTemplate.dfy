/**
 Commands from a printf-like template with %s, %b and %%: formatting is splitting the template at
 spaces first and filling in the arguments afterwards.
 */
module RespTemplate {
  import opened Bytes
  import opened RespWriter

  /** One thing in a template: a byte to copy, an argument to insert, or a separator. */
  datatype Item = Literal(b: byte) | Hole | Gap

  datatype Scan = Item(item: Item, used: nat) | OtherDirective

  /** The item at the head of a template; a final percent sign is an ordinary byte. */
  function ScanItem(fmt: seq<byte>): (r: Scan)
    requires fmt != []
    ensures r.Item? ==> 1 <= r.used <= |fmt|
  {
    if fmt[0] != PERCENT || |fmt| == 1 then
      if fmt[0] == SPACE then Scan.Item(Gap, 1) else Scan.Item(Literal(fmt[0]), 1)
    else if fmt[1] == 115 || fmt[1] == 98 then Scan.Item(Hole, 2)
    else if fmt[1] == PERCENT then Scan.Item(Literal(PERCENT), 2)
    else OtherDirective
  }

  /** The items before the first directive of another kind. */
  function Items(fmt: seq<byte>): seq<Item> {
    if fmt == [] || ScanItem(fmt).OtherDirective? then []
    else [ScanItem(fmt).item] + Items(fmt[ScanItem(fmt).used..])
  }

  predicate Plain(fmt: seq<byte>) {
    fmt == [] || (ScanItem(fmt).Item? && Plain(fmt[ScanItem(fmt).used..]))
  }

  /** The words of a template, `cur` being the word begun before. */
  function Words(items: seq<Item>, cur: seq<Item>): (r: seq<seq<Item>>) {
    if items == [] then (if cur == [] then [] else [cur])
    else if items[0].Gap? then (if cur == [] then [] else [cur]) + Words(items[1..], [])
    else Words(items[1..], cur + [items[0]])
  }

  function Holes(word: seq<Item>): nat {
    if word == [] then 0 else Holes(word[..|word| - 1]) + if word[|word| - 1].Hole? then 1 else 0
  }

  function AllHoles(words: seq<seq<Item>>): nat {
    if words == [] then 0 else AllHoles(words[..|words| - 1]) + Holes(words[|words| - 1])
  }

  /** A word with its holes replaced by the arguments from number `off` on. */
  function Fill(word: seq<Item>, args: seq<seq<byte>>, off: nat): seq<byte>
    requires off + Holes(word) <= |args|
  {
    if word == [] then []
    else
      var before, last := word[..|word| - 1], word[|word| - 1];
      Fill(before, args, off) + match last
                                case Literal(b) => [b]
                                case Hole => args[off + Holes(before)]
                                case Gap => []
  }

  /** Every word filled; one argument per word, whatever is inserted. */
  function FillAll(words: seq<seq<Item>>, args: seq<seq<byte>>): (r: seq<seq<byte>>)
    requires AllHoles(words) <= |args|
    ensures |r| == |words|
  {
    if words == [] then []
    else
      var before, last := words[..|words| - 1], words[|words| - 1];
      FillAll(before, args) + [Fill(last, args, AllHoles(before))]
  }

  /** The arguments a plain template stands for. */
  function Expand(fmt: seq<byte>, args: seq<seq<byte>>): seq<seq<byte>>
    requires AllHoles(Words(Items(fmt), [])) <= |args|
  {
    FillAll(Words(Items(fmt), []), args)
  }

  function ItemHoles(items: seq<Item>): nat {
    if items == [] then 0 else (if items[0].Hole? then 1 else 0) + ItemHoles(items[1..])
  }

  // ---------- One pass over the template ----------

  /** The closed words make up `argv`, the word begun makes up `curarg`, and `rest` is still to be read. */
  ghost predicate At(all: seq<seq<Item>>, rest: seq<Item>, args: seq<seq<byte>>, words: seq<seq<Item>>, cur: seq<Item>,
                     argv: seq<seq<byte>>, curarg: seq<byte>, touched: bool, next: nat) {
    && all == words + Words(rest, cur)
    && next == AllHoles(words) + Holes(cur) && next + ItemHoles(rest) <= |args|
    && argv == FillAll(words, args) && curarg == Fill(cur, args, AllHoles(words))
    && (touched <==> cur != [])
  }

  ghost predicate Partway(all: seq<seq<Item>>, rest: seq<Item>, args: seq<seq<byte>>,
                          argv: seq<seq<byte>>, curarg: seq<byte>, touched: bool, next: nat) {
    exists words, cur :: At(all, rest, args, words, cur, argv, curarg, touched, next)
  }

  lemma CloseWord(words: seq<seq<Item>>, cur: seq<Item>, args: seq<seq<byte>>)
    requires AllHoles(words) + Holes(cur) <= |args|
    ensures AllHoles(words + [cur]) == AllHoles(words) + Holes(cur)
    ensures FillAll(words + [cur], args) == FillAll(words, args) + [Fill(cur, args, AllHoles(words))]
  {
    assert (words + [cur])[..|words|] == words;
  }

  lemma PassStart(items: seq<Item>, args: seq<seq<byte>>)
    requires ItemHoles(items) <= |args|
    ensures Partway(Words(items, []), items, args, [], [], false, 0)
  {
    assert [] + Words(items, []) == Words(items, []);
    assert At(Words(items, []), items, args, [], [], [], [], false, 0);
  }

  lemma PassGap(all: seq<seq<Item>>, rest: seq<Item>, args: seq<seq<byte>>,
                argv: seq<seq<byte>>, curarg: seq<byte>, touched: bool, next: nat)
    requires Partway(all, rest, args, argv, curarg, touched, next) && rest != [] && rest[0].Gap?
    ensures Partway(all, rest[1..], args, if touched then argv + [curarg] else argv, [], false, next)
  {
    hide AllHoles, FillAll;
    var words, cur :| At(all, rest, args, words, cur, argv, curarg, touched, next);
    if touched {
      CloseWord(words, cur, args);
      ConcatAssoc(words, [cur], Words(rest[1..], []));
      assert At(all, rest[1..], args, words + [cur], [], argv + [curarg], [], false, next);
    } else {
      assert [] + Words(rest[1..], []) == Words(rest[1..], []);
      assert At(all, rest[1..], args, words, [], argv, [], false, next);
    }
  }

  lemma PassItem(all: seq<seq<Item>>, rest: seq<Item>, args: seq<seq<byte>>,
                 argv: seq<seq<byte>>, curarg: seq<byte>, touched: bool, next: nat)
    requires Partway(all, rest, args, argv, curarg, touched, next) && rest != [] && !rest[0].Gap?
    ensures rest[0].Literal? ==> Partway(all, rest[1..], args, argv, curarg + [rest[0].b], true, next)
    ensures rest[0].Hole? ==>
              next < |args| && Partway(all, rest[1..], args, argv, curarg + args[next], true, next + 1)
  {
    hide AllHoles, FillAll, Fill, Holes;
    var words, cur :| At(all, rest, args, words, cur, argv, curarg, touched, next);
    var cur' := cur + [rest[0]];
    OneMoreHole(cur, rest[0]);
    OneMoreFilled(cur, rest[0], args, AllHoles(words));
    if rest[0].Literal? {
      assert At(all, rest[1..], args, words, cur', argv, curarg + [rest[0].b], true, next);
    } else {
      assert At(all, rest[1..], args, words, cur', argv, curarg + args[next], true, next + 1);
    }
  }

  lemma OneMoreHole(cur: seq<Item>, item: Item)
    ensures Holes(cur + [item]) == Holes(cur) + if item.Hole? then 1 else 0
  {
    assert (cur + [item])[..|cur|] == cur;
  }

  lemma OneMoreFilled(cur: seq<Item>, item: Item, args: seq<seq<byte>>, off: nat)
    requires off + Holes(cur + [item]) <= |args| && !item.Gap?
    ensures off + Holes(cur) + (if item.Hole? then 1 else 0) <= |args|
    ensures Fill(cur + [item], args, off)
            == Fill(cur, args, off) + if item.Literal? then [item.b] else args[off + Holes(cur)]
  {
    hide Holes;
    OneMoreHole(cur, item);
    var word := cur + [item];
    assert word[..|word| - 1] == cur && word[|word| - 1] == item;
  }

  lemma PassEnd(all: seq<seq<Item>>, args: seq<seq<byte>>,
                argv: seq<seq<byte>>, curarg: seq<byte>, touched: bool, next: nat)
    requires Partway(all, [], args, argv, curarg, touched, next)
    ensures AllHoles(all) <= |args| && FillAll(all, args) == if touched then argv + [curarg] else argv
  {
    var words, cur :| At(all, [], args, words, cur, argv, curarg, touched, next);
    if touched {
      CloseWord(words, cur, args);
    } else {
      assert words + [] == words;
    }
  }

  lemma Scanned(fmt: seq<byte>, i: nat)
    requires i < |fmt|
    ensures var scan, items := ScanItem(fmt[i..]), Items(fmt[i..]);
            if scan.OtherDirective? then !Plain(fmt[i..])
            else i + scan.used <= |fmt| && Plain(fmt[i..]) == Plain(fmt[i + scan.used..])
                 && items != [] && items[0] == scan.item && items[1..] == Items(fmt[i + scan.used..])
  {
    var rest := fmt[i..];
    assert ScanItem(rest).Item? ==> rest[ScanItem(rest).used..] == fmt[i + ScanItem(rest).used..];
  }

  /** Reads the template once, growing the current argument and closing it at gaps. */
  method ReadTemplate(fmt: seq<byte>, args: seq<seq<byte>>) returns (ok: bool, argv: seq<seq<byte>>)
    requires ItemHoles(Items(fmt)) <= |args|
    ensures ok == Plain(fmt)
    ensures ok ==> AllHoles(Words(Items(fmt), [])) <= |args| && argv == Expand(fmt, args)
  {
    hide Partway, Words, ScanItem;
    ghost var all := Words(Items(fmt), []);
    var i, next: nat, touched := 0, 0, false;
    var curarg: seq<byte> := [];
    argv := [];
    PassStart(Items(fmt), args);
    assert fmt[0..] == fmt;
    while i < |fmt|
      invariant 0 <= i <= |fmt| && Plain(fmt) == Plain(fmt[i..])
      invariant Partway(all, Items(fmt[i..]), args, argv, curarg, touched, next)
    {
      ghost var items := Items(fmt[i..]);
      Scanned(fmt, i);
      var scan := ScanItem(fmt[i..]);
      if scan.OtherDirective? {
        return false, argv;
      }
      if scan.item.Gap? {
        PassGap(all, items, args, argv, curarg, touched, next);
        argv := if touched then argv + [curarg] else argv;
        curarg, touched := [], false;
      } else {
        PassItem(all, items, args, argv, curarg, touched, next);
        if scan.item.Literal? {
          curarg := curarg + [scan.item.b];
        } else {
          curarg, next := curarg + args[next], next + 1;
        }
        touched := true;
      }
      i := i + scan.used;
    }
    PassEnd(all, args, argv, curarg, touched, next);
    if touched {
      argv := argv + [curarg];
    }
    ok := true;
  }

  datatype Formatted = Command(bytes: array<byte>, len: nat) | Unsupported

  /** The same bytes as splitting the template first and formatting the filled words as a vector. */
  method FormatCommand(fmt: seq<byte>, args: seq<seq<byte>>) returns (r: Formatted)
    requires ItemHoles(Items(fmt)) <= |args|
    requires AllHoles(Words(Items(fmt), [])) <= |args| && |CommandBytes(Expand(fmt, args))| <= INT_MAX
    ensures r.Command? <==> Plain(fmt)
    ensures r.Command? ==> fresh(r.bytes) && r.bytes.Length == r.len + 1
    ensures r.Command? ==> r.bytes[..r.len] == CommandBytes(Expand(fmt, args))
  {
    var ok, argv := ReadTemplate(fmt, args);
    if !ok {
      return Unsupported;
    }
    var cmd, len := FormatCommandArgv(argv);
    r := Command(cmd, len);
  }

  // ---------- Insertions stay inside their argument ----------

  lemma {:induction false} FilledWord(words: seq<seq<Item>>, args: seq<seq<byte>>, k: nat)
    requires AllHoles(words) <= |args| && k < |words|
    ensures AllHoles(words[..k]) + Holes(words[k]) <= |args|
    ensures FillAll(words, args)[k] == Fill(words[k], args, AllHoles(words[..k]))
    decreases |words|
  {
    var last := |words| - 1;
    if k < last {
      assert words[..last][..k] == words[..k];
      FilledWord(words[..last], args, k);
    }
  }

  lemma {:induction false} FillLocal(word: seq<Item>, args: seq<seq<byte>>, args': seq<seq<byte>>, off: nat)
    requires off + Holes(word) <= |args| == |args'|
    requires forall j :: off <= j < off + Holes(word) ==> args[j] == args'[j]
    ensures Fill(word, args, off) == Fill(word, args', off)
    decreases |word|
  {
    if word != [] {
      FillLocal(word[..|word| - 1], args, args', off);
    }
  }

  /**
   Inserting other bytes, spaces included, at hole `h` changes neither the number of arguments nor
   any argument but the one the hole is in.
   */
  lemma InsertionsStayInside(fmt: seq<byte>, args: seq<seq<byte>>, h: nat, text: seq<byte>)
    requires AllHoles(Words(Items(fmt), [])) <= |args| && h < |args|
    ensures var words, after := Words(Items(fmt), []), Expand(fmt, args[h := text]);
            && |after| == |Expand(fmt, args)| == |words|
            && forall k :: 0 <= k < |words| && !(AllHoles(words[..k]) <= h < AllHoles(words[..k]) + Holes(words[k])) ==>
                 after[k] == Expand(fmt, args)[k]
  {
    var words, args' := Words(Items(fmt), []), args[h := text];
    forall k | 0 <= k < |words| && !(AllHoles(words[..k]) <= h < AllHoles(words[..k]) + Holes(words[k]))
      ensures Expand(fmt, args')[k] == Expand(fmt, args)[k]
    {
      FilledWord(words, args, k);
      FilledWord(words, args', k);
      FillLocal(words[k], args, args', AllHoles(words[..k]));
    }
  }

  // ---------- What a template says, byte by byte ----------

  /** How an item is written: `%%` for a percent sign, `%s` or `%b` for an argument, anything else as it is. */
  predicate Spells(u: seq<byte>, item: Item) {
    match item
    case Literal(b) => u == (if b == 37 then [37, 37] else [b]) && b != 32
    case Hole => u == [37, 115] || u == [37, 98]
    case Gap => u == [32]
  }

  predicate AllSpell(us: seq<seq<byte>>, items: seq<Item>) {
    |us| == |items| && forall k :: 0 <= k < |us| ==> Spells(us[k], items[k])
  }

  function Written(us: seq<seq<byte>>): seq<byte> { if us == [] then [] else us[0] + Written(us[1..]) }

  /** A template is read item by item; a percent sign at its very end stands for itself. */
  lemma {:induction false} ItemsWritten(us: seq<seq<byte>>, items: seq<Item>, end: seq<byte>)
    requires AllSpell(us, items) && (end == [] || end == [37])
    ensures Plain(Written(us) + end)
    ensures Items(Written(us) + end) == items + if end == [] then [] else [Literal(37)]
  {
    var fmt := Written(us) + end;
    if us == [] {
      assert fmt == end;
      if end == [37] {
        assert ScanItem(end) == Scan.Item(Literal(37), 1) && end[1..] == [];
      }
    } else {
      var u, rest := us[0], Written(us[1..]) + end;
      ConcatAssoc(u, Written(us[1..]), end);
      ItemsWritten(us[1..], items[1..], end);
      ItemWritten(u, items[0], rest);
      assert [items[0]] + items[1..] == items;
    }
  }

  lemma ItemWritten(u: seq<byte>, item: Item, rest: seq<byte>)
    requires Spells(u, item)
    ensures u + rest != [] && ScanItem(u + rest) == Scan.Item(item, |u|) && (u + rest)[|u|..] == rest
  {
    assert (u + rest)[0] == u[0] && (|u| == 2 ==> (u + rest)[1] == u[1]);
  }

  /** Any other directive is not for this reader. */
  lemma {:induction false} OtherWritten(us: seq<seq<byte>>, items: seq<Item>, b: byte, rest: seq<byte>)
    requires AllSpell(us, items) && b !in {37, 115, 98}
    ensures !Plain(Written(us) + ([37, b] + rest))
  {
    var end := [37, b] + rest;
    if us == [] {
      assert Written(us) + end == end && end[0] == 37 && end[1] == b;
    } else {
      ConcatAssoc(us[0], Written(us[1..]), end);
      OtherWritten(us[1..], items[1..], b, rest);
      ItemWritten(us[0], items[0], Written(us[1..]) + end);
    }
  }

  predicate IsWord(word: seq<Item>) { word != [] && forall k :: 0 <= k < |word| ==> !word[k].Gap? }

  predicate AreWords(words: seq<seq<Item>>) { forall k :: 0 <= k < |words| ==> IsWord(words[k]) }

  /** At least one space between any two words. */
  predicate Apart(gaps: seq<nat>) { forall k :: 0 < k < |gaps| ==> gaps[k] > 0 }

  function Spaces(n: nat): seq<Item> { if n == 0 then [] else [Gap] + Spaces(n - 1) }

  /** The words with so many spaces before each. */
  function Laid(words: seq<seq<Item>>, gaps: seq<nat>): seq<Item>
    requires |gaps| == |words|
  {
    if words == [] then [] else Spaces(gaps[0]) + (words[0] + Laid(words[1..], gaps[1..]))
  }

  lemma {:induction false} SkipSpaces(n: nat, rest: seq<Item>)
    ensures Words(Spaces(n) + rest, []) == Words(rest, [])
  {
    if n == 0 {
      assert [] + rest == rest;
    } else {
      var items := Spaces(n) + rest;
      assert items[0] == Gap && items[1..] == Spaces(n - 1) + rest;
      SkipSpaces(n - 1, rest);
      assert [] + Words(items[1..], []) == Words(items[1..], []);
    }
  }

  lemma {:induction false} WholeWord(word: seq<Item>, rest: seq<Item>, cur: seq<Item>)
    requires forall k :: 0 <= k < |word| ==> !word[k].Gap?
    ensures Words(word + rest, cur) == Words(rest, cur + word)
    decreases |word|
  {
    if word == [] {
      assert word + rest == rest && cur + word == cur;
    } else {
      var items := word + rest;
      assert items[0] == word[0] && items[1..] == word[1..] + rest;
      WholeWord(word[1..], rest, cur + [word[0]]);
      assert cur + [word[0]] + word[1..] == cur + word;
    }
  }

  /** The words of a template are what stands between spaces. */
  lemma {:induction false} WordsLaid(words: seq<seq<Item>>, gaps: seq<nat>, tail: nat)
    requires AreWords(words) && |gaps| == |words| && Apart(gaps)
    ensures Words(Laid(words, gaps) + Spaces(tail), []) == words
    decreases |words|
  {
    var end := Spaces(tail);
    if words == [] {
      assert [] + end == end == end + [];
      SkipSpaces(tail, []);
    } else {
      var rest := Laid(words[1..], gaps[1..]) + end;
      assert Laid(words, gaps) + end == Spaces(gaps[0]) + (words[0] + rest);
      SkipSpaces(gaps[0], words[0] + rest);
      WholeWord(words[0], rest, []);
      assert [] + words[0] == words[0];
      WordsLaid(words[1..], gaps[1..], tail);
      WordEnds(words[0], words[1..], gaps[1..], tail);
      assert [words[0]] + words[1..] == words;
    }
  }

  /** A word ends with the template or at a space. */
  lemma WordEnds(word: seq<Item>, words: seq<seq<Item>>, gaps: seq<nat>, tail: nat)
    requires word != [] && |gaps| == |words| && forall k :: 0 <= k < |gaps| ==> gaps[k] > 0
    ensures var rest := Laid(words, gaps) + Spaces(tail);
            Words(rest, word) == [word] + Words(rest, [])
  {
    var rest := Laid(words, gaps) + Spaces(tail);
    if rest != [] {
      assert rest[0] == Gap by {
        if words != [] {
          assert Laid(words, gaps)[0] == Spaces(gaps[0])[0];
        }
      }
      assert [] + Words(rest[1..], []) == Words(rest[1..], []);
    } else {
      assert [word] + [] == [word];
    }
  }

  /** What the last item of a word adds. */
  function Last(item: Item, args: seq<seq<byte>>, next: nat): seq<byte>
    requires item.Hole? ==> next < |args|
  {
    match item
    case Literal(b) => [b]
    case Hole => args[next]
    case Gap => []
  }

  lemma FilledLast(word: seq<Item>, item: Item, args: seq<seq<byte>>, off: nat)
    requires off + Holes(word + [item]) <= |args|
    ensures off + Holes(word) + (if item.Hole? then 1 else 0) <= |args|
    ensures Fill(word + [item], args, off) == Fill(word, args, off) + Last(item, args, off + Holes(word))
  {
    hide Holes;
    OneMoreHole(word, item);
    var longer := word + [item];
    assert longer[..|longer| - 1] == word && longer[|longer| - 1] == item;
  }

  lemma JoinLast(a: seq<Item>, b: seq<Item>)
    requires b != []
    ensures b[..|b| - 1] + [b[|b| - 1]] == b && a + b == a + b[..|b| - 1] + [b[|b| - 1]]
  {
  }

  lemma {:induction false} HolesPieces(a: seq<Item>, b: seq<Item>)
    ensures Holes(a + b) == Holes(a) + Holes(b)
    decreases |b|
  {
    if b == [] {
      assert a + b == a;
    } else {
      JoinLast(a, b);
      HolesPieces(a, b[..|b| - 1]);
      OneMoreHole(a + b[..|b| - 1], b[|b| - 1]);
    }
  }

  /** Filling goes piece by piece: what is before does not depend on what is behind. */
  lemma {:induction false} FillPieces(a: seq<Item>, b: seq<Item>, args: seq<seq<byte>>, off: nat)
    requires off + Holes(a) + Holes(b) <= |args|
    ensures Holes(a + b) == Holes(a) + Holes(b)
    ensures Fill(a + b, args, off) == Fill(a, args, off) + Fill(b, args, off + Holes(a))
    decreases |b|
  {
    HolesPieces(a, b);
    if b == [] {
      assert a + b == a && Fill(a, args, off) + [] == Fill(a, args, off);
    } else {
      hide Fill, Holes, Last;
      var front, last := b[..|b| - 1], b[|b| - 1];
      JoinLast(a, b);
      HolesPieces(a, front);
      OneMoreHole(front, last);
      FillPieces(a, front, args, off);
      FillOnePast(a, front, last, args, off);
    }
  }

  lemma FillOnePast(a: seq<Item>, front: seq<Item>, last: Item, args: seq<seq<byte>>, off: nat)
    requires off + Holes(a) + Holes(front + [last]) <= |args| && Holes(front) <= Holes(front + [last])
    requires Holes(a + front + [last]) == Holes(a) + Holes(front + [last])
             && Holes(a + front) == Holes(a) + Holes(front)
    requires Fill(a + front, args, off) == Fill(a, args, off) + Fill(front, args, off + Holes(a))
    ensures Fill(a + front + [last], args, off)
            == Fill(a, args, off) + Fill(front + [last], args, off + Holes(a))
  {
    hide Fill, Holes, Last;
    FilledLast(a + front, last, args, off);
    FilledLast(front, last, args, off + Holes(a));
    ConcatAssoc(Fill(a, args, off), Fill(front, args, off + Holes(a)), Last(last, args, off + Holes(a + front)));
  }

  /** An argument is inserted as it is, anything else is the byte it stands for. */
  lemma FillOne(item: Item, args: seq<seq<byte>>, off: nat)
    requires !item.Gap? && off + Holes([item]) <= |args|
    ensures item.Hole? ==> off < |args| && Fill([item], args, off) == args[off]
    ensures item.Literal? ==> Fill([item], args, off) == [item.b]
  {
    assert [item][..0] == [] && Holes([]) == 0 && Fill([], args, off) == [];
  }

  /**
   A template written out of words with spaces between stands for those words, each filled with its own
   arguments.
   */
  lemma TemplateMeans(us: seq<seq<byte>>, words: seq<seq<Item>>, gaps: seq<nat>, tail: nat, args: seq<seq<byte>>)
    requires AreWords(words) && |gaps| == |words| && Apart(gaps) && AllHoles(words) <= |args|
    requires AllSpell(us, Laid(words, gaps) + Spaces(tail))
    ensures var fmt := Written(us);
            Plain(fmt) && Words(Items(fmt), []) == words && Expand(fmt, args) == FillAll(words, args)
  {
    var items := Laid(words, gaps) + Spaces(tail);
    ItemsWritten(us, items, []);
    assert Written(us) + [] == Written(us) && items + [] == items;
    WordsLaid(words, gaps, tail);
  }

  /** Bytes that stand for themselves. */
  function Literals(text: seq<byte>): seq<Item> { seq(|text|, k requires 0 <= k < |text| => Literal(text[k])) }

  lemma {:induction false} FillLiterals(text: seq<byte>, args: seq<seq<byte>>, off: nat)
    requires off <= |args|
    ensures Holes(Literals(text)) == 0 && Fill(Literals(text), args, off) == text
    decreases |text|
  {
    if text != [] {
      var n := |text| - 1;
      assert Literals(text)[..n] == Literals(text[..n]);
      FillLiterals(text[..n], args, off);
      assert text[..n] + [text[n]] == text;
    }
  }

  /** A template without arguments gives its words, the doubled percent signs made single. */
  lemma PlainTemplate(us: seq<seq<byte>>, texts: seq<seq<byte>>, gaps: seq<nat>, tail: nat)
    requires forall k :: 0 <= k < |texts| ==> texts[k] != [] && SPACE !in texts[k]
    requires |gaps| == |texts| && Apart(gaps)
    requires var words := seq(|texts|, k requires 0 <= k < |texts| => Literals(texts[k]));
             AllSpell(us, Laid(words, gaps) + Spaces(tail))
    ensures AllHoles(Words(Items(Written(us)), [])) == 0
    ensures Plain(Written(us)) && Expand(Written(us), []) == texts
  {
    var words := seq(|texts|, k requires 0 <= k < |texts| => Literals(texts[k]));
    AllLiterals(texts, words);
    TemplateMeans(us, words, gaps, tail, []);
  }

  lemma {:induction false} AllLiterals(texts: seq<seq<byte>>, words: seq<seq<Item>>)
    requires |words| == |texts| && forall k :: 0 <= k < |texts| ==> words[k] == Literals(texts[k])
    ensures AllHoles(words) == 0 && FillAll(words, []) == texts
    decreases |texts|
  {
    if texts != [] {
      var n := |texts| - 1;
      AllLiterals(texts[..n], words[..n]);
      FillLiterals(texts[n], [], 0);
      assert texts[..n] + [texts[n]] == texts;
    }
  }
}
