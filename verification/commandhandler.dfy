/**
 * The pure front half of CommandHandler.processCommand: splitting the input
 * line on whitespace into at most three parts, parsing the first part as a
 * Java int, and classifying the line into a reference number, a command and
 * a name. The dispatch on the command is Shell.Session.ProcessCommand.
 */
module CommandHandler {
  import opened Wrappers

  /** The characters of the regular-expression class \s: space, \t, \n, \x0B, \f, \r. */
  predicate IsWs(c: char) {
    c == ' ' || c == '\t' || c == '\n' || c == '\U{000B}' || c == '\U{000C}' || c == '\r'
  }

  predicate NoWs(s: string) {
    forall i :: 0 <= i < |s| ==> !IsWs(s[i])
  }

  predicate AllWs(s: string) {
    forall i :: 0 <= i < |s| ==> IsWs(s[i])
  }

  /** The position of the first whitespace character at or after from, or |s|. */
  function FirstWs(s: string, from: nat): (i: nat)
    requires from <= |s|
    ensures from <= i <= |s|
    ensures forall j :: from <= j < i ==> !IsWs(s[j])
    ensures i < |s| ==> IsWs(s[i])
    decreases |s| - from
  {
    if from == |s| || IsWs(s[from]) then from else FirstWs(s, from + 1)
  }

  /** The end of the whitespace run that starts at from. */
  function SkipWs(s: string, from: nat): (i: nat)
    requires from <= |s|
    ensures from <= i <= |s|
    ensures forall j :: from <= j < i ==> IsWs(s[j])
    ensures i < |s| ==> !IsWs(s[i])
    decreases |s| - from
  {
    if from == |s| || !IsWs(s[from]) then from else SkipWs(s, from + 1)
  }

  /**
   * String.split("\\s+", limit) for a positive limit: the leftmost maximal
   * whitespace runs, at most limit - 1 of them, separate the parts; an empty
   * leading part and empty trailing parts are kept.
   */
  function SplitWs(s: string, limit: nat): (r: seq<string>)
    requires limit >= 1
    ensures 1 <= |r| <= limit
    decreases limit
  {
    if limit == 1 then [s]
    else
      var i := FirstWs(s, 0);
      if i == |s| then [s]
      else [s[..i]] + SplitWs(s[SkipWs(s, i)..], limit - 1)
  }

  /**
   * The reference view of a line: every maximal whitespace run becomes one
   * space.
   */
  function Squeeze(s: string): string
    decreases |s|
  {
    if s == [] then []
    else if !IsWs(s[0]) then [s[0]] + Squeeze(s[1..])
    else " " + Squeeze(s[SkipWs(s, 0)..])
  }

  /** The parts joined back with one space between each two. */
  function Unsplit(parts: seq<string>): string
    requires |parts| >= 1
  {
    if |parts| == 1 then parts[0] else parts[0] + " " + Unsplit(parts[1..])
  }

  lemma {:induction false} SqueezeNoWsPrefix(a: string, t: string)
    requires NoWs(a)
    ensures Squeeze(a + t) == a + Squeeze(t)
    decreases |a|
  {
    var s := a + t;
    if a == [] {
      assert s == t;
    } else {
      assert s[0] == a[0] && !IsWs(s[0]);
      assert s[1..] == a[1..] + t;
      assert NoWs(a[1..]) by {
        forall k | 0 <= k < |a[1..]| ensures !IsWs(a[1..][k]) {
          assert a[1..][k] == a[k + 1];
        }
      }
      SqueezeNoWsPrefix(a[1..], t);
      calc {
        Squeeze(s);
        [s[0]] + Squeeze(s[1..]);
        [a[0]] + (a[1..] + Squeeze(t));
        { assert a == [a[0]] + a[1..]; }
        a + Squeeze(t);
      }
    }
  }

  lemma SqueezeWsPrefix(w: string, t: string)
    requires w != [] && AllWs(w)
    requires t == [] || !IsWs(t[0])
    ensures Squeeze(w + t) == " " + Squeeze(t)
  {
    var s := w + t;
    assert SkipWs(s, 0) == |w| by {
      SkipWsIs(s, 0, |w|);
    }
    assert s[|w|..] == t;
  }

  lemma {:induction false} SkipWsIs(s: string, from: nat, k: nat)
    requires from <= k <= |s|
    requires forall j :: from <= j < k ==> IsWs(s[j])
    requires k < |s| ==> !IsWs(s[k])
    ensures SkipWs(s, from) == k
    decreases k - from
  {
    if from < k {
      SkipWsIs(s, from + 1, k);
    }
  }

  lemma {:induction false} FirstWsIs(s: string, from: nat, k: nat)
    requires from <= k <= |s|
    requires forall j :: from <= j < k ==> !IsWs(s[j])
    requires k < |s| ==> IsWs(s[k])
    ensures FirstWs(s, from) == k
    decreases k - from
  {
    if from < k {
      FirstWsIs(s, from + 1, k);
    }
  }

  /**
   * The parts of a split: none but the last holds whitespace, and the last
   * holds none either unless the limit was reached.
   */
  lemma {:induction false} SplitWsParts(s: string, limit: nat)
    requires limit >= 1
    ensures var r := SplitWs(s, limit);
            && (forall k :: 0 <= k < |r| - 1 ==> NoWs(r[k]))
            && (|r| < limit ==> NoWs(r[|r| - 1]))
    decreases limit
  {
    if limit > 1 {
      var i := FirstWs(s, 0);
      if i < |s| {
        var rest := s[SkipWs(s, i)..];
        SplitWsParts(rest, limit - 1);
        var r := SplitWs(s, limit);
        var tail := SplitWs(rest, limit - 1);
        assert r == [s[..i]] + tail;
        forall k | 1 <= k < |r| ensures r[k] == tail[k - 1] { }
        assert NoWs(r[0]);
      }
    }
  }

  /**
   * Joining the parts of a split with single spaces gives the line back, up
   * to the length of its whitespace runs.
   */
  lemma {:induction false} SplitWsSqueeze(s: string, limit: nat)
    requires limit >= 1
    ensures Squeeze(Unsplit(SplitWs(s, limit))) == Squeeze(s)
    decreases limit
  {
    if limit > 1 {
      var i := FirstWs(s, 0);
      if i < |s| {
        var j := SkipWs(s, i);
        var a, w, rest := s[..i], s[i..j], s[j..];
        SplitWsSqueeze(rest, limit - 1);
        var tail := SplitWs(rest, limit - 1);
        var r := SplitWs(s, limit);
        var u := Unsplit(tail);
        assert r == [a] + tail;
        assert r[1..] == tail;
        assert Unsplit(r) == a + (" " + u);
        assert NoWs(a);
        assert AllWs(w) && w != [];
        assert s == a + (w + rest);
        TailStartsNoWs(rest, limit - 1);
        SqueezeJoin(a, w, rest, u);
      }
    }
  }

  /**
   * A word, a whitespace run and a rest squeeze like the word, one space
   * and anything that squeezes like the rest.
   */
  lemma SqueezeJoin(a: string, w: string, rest: string, u: string)
    requires NoWs(a) && AllWs(w) && w != []
    requires rest == [] || !IsWs(rest[0])
    requires u == [] || !IsWs(u[0])
    requires Squeeze(rest) == Squeeze(u)
    ensures Squeeze(a + (w + rest)) == Squeeze(a + (" " + u))
  {
    SqueezeNoWsPrefix(a, w + rest);
    SqueezeWsPrefix(w, rest);
    SqueezeWsPrefix(" ", u);
    SqueezeNoWsPrefix(a, " " + u);
  }

  /** The parts of a rest that starts after a whitespace run, joined, do not start with whitespace. */
  lemma TailStartsNoWs(rest: string, limit: nat)
    requires limit >= 1
    requires rest == [] || !IsWs(rest[0])
    ensures var u := Unsplit(SplitWs(rest, limit)); u == [] || !IsWs(u[0])
  {
    var r := SplitWs(rest, limit);
    if rest != [] && limit > 1 {
      var i := FirstWs(rest, 0);
      if i < |rest| {
        assert r[0] == rest[..i];
        assert Unsplit(r)[0] == rest[0];
      }
    }
  }

  const IntMin: int := -0x8000_0000
  const IntMax: int := 0x7FFF_FFFF

  predicate IsDigit(c: char) {
    '0' <= c <= '9'
  }

  predicate AllDigits(s: string) {
    forall i :: 0 <= i < |s| ==> IsDigit(s[i])
  }

  /** The value of a string of decimal digits, most significant first. */
  function DigitsValue(s: string): (v: nat)
    requires AllDigits(s)
  {
    if s == [] then 0
    else DigitsValue(s[..|s| - 1]) * 10 + (s[|s| - 1] as int - '0' as int)
  }

  /**
   * Integer.parseInt on ASCII input: an optional sign followed by at least
   * one decimal digit, with a value inside the 32-bit range; None stands for
   * the NumberFormatException.
   */
  function ParseInt(s: string): (r: Option<int>)
    ensures r.Some? ==> IntMin <= r.value <= IntMax
  {
    if s == [] then None
    else
      var signed := s[0] == '-' || s[0] == '+';
      var digits := if signed then s[1..] else s;
      if digits == [] || !AllDigits(digits) then None
      else
        var v: int := if s[0] == '-' then -(DigitsValue(digits) as int) else DigitsValue(digits);
        if IntMin <= v <= IntMax then Some(v) else None
  }

  /** The decimal digits of n, without leading zeros. */
  function ShowNat(n: nat): (s: string)
    ensures s != [] && AllDigits(s)
  {
    var d := ['0' + (n % 10) as char];
    if n < 10 then d else ShowNat(n / 10) + d
  }

  /** Integer.toString: a minus sign before the digits of a negative number. */
  function ShowInt(n: int): (s: string)
    ensures s != []
  {
    if n < 0 then "-" + ShowNat(-n) else ShowNat(n)
  }

  lemma {:induction false} DigitsOfShowNat(n: nat)
    ensures DigitsValue(ShowNat(n)) == n
    ensures ShowNat(n)[0] != '-' && ShowNat(n)[0] != '+'
  {
    var s := ShowNat(n);
    if n >= 10 {
      DigitsOfShowNat(n / 10);
      assert s[..|s| - 1] == ShowNat(n / 10);
      assert s[0] == ShowNat(n / 10)[0];
    }
  }

  /** Every int in the 32-bit range reads back from its decimal form. */
  lemma ParseShowInt(n: int)
    requires IntMin <= n <= IntMax
    ensures ParseInt(ShowInt(n)) == Some(n)
  {
    if n < 0 {
      DigitsOfShowNat(-n);
      assert ShowInt(n)[1..] == ShowNat(-n);
    } else {
      DigitsOfShowNat(n);
    }
  }

  /** A number text holds no whitespace, so it is always a whole part of a split. */
  lemma ShowIntNoWs(n: int)
    ensures NoWs(ShowInt(n))
  {
    var d := ShowNat(if n < 0 then -n else n);
    assert AllDigits(d);
  }

  /** A number outside the 32-bit range is refused, even in its plain decimal form. */
  lemma ParseShowIntOutOfRange(n: int)
    requires n < IntMin || IntMax < n
    ensures ParseInt(ShowInt(n)) == None
  {
    if n < 0 {
      DigitsOfShowNat(-n);
      assert ShowInt(n)[1..] == ShowNat(-n);
    } else {
      DigitsOfShowNat(n);
    }
  }

  /** What parseInt refuses besides: the empty text, a lone sign, a word; and a plus sign is accepted. */
  lemma ParseIntRefusals()
    ensures ParseInt("") == None
    ensures ParseInt("-") == None
    ensures ParseInt("cut") == None
    ensures ParseInt("+7") == Some(7)
  {
    assert !AllDigits("cut") by { assert !IsDigit("cut"[0]); }
    assert "+7"[1..] == "7";
  }

  /**
   * A classified command line. A line whose first part is a number (numeric)
   * names its reference explicitly and puts the command second; any other
   * line puts the command first and falls back on the last reference.
   */
  datatype Request = Request(numeric: bool, ner: int, command: string, name: string, parts: seq<string>)

  /** The classification at the start of processCommand. */
  function Tokenise(line: string, lastNER: int): (q: Request)
    ensures |q.parts| >= 1 && q.parts == SplitWs(line, 3)
    ensures q.numeric <==> ParseInt(q.parts[0]).Some?
    ensures q.numeric ==> q.ner == ParseInt(q.parts[0]).value
    ensures !q.numeric ==> q.ner == lastNER && q.command == q.parts[0]
  {
    var parts := SplitWs(line, 3);
    match ParseInt(parts[0])
    case Some(n) =>
      Request(true, n, if |parts| > 1 then parts[1] else "default",
              if |parts| > 2 then parts[2] else "", parts)
    case None =>
      Request(false, lastNER, parts[0], if |parts| > 1 then parts[1] else "", parts)
  }

  /** Splitting a line whose first word is followed by one separator and a non-space. */
  lemma SplitWsStep(a: string, rest: string, limit: nat)
    requires limit >= 2 && NoWs(a)
    requires rest == [] || !IsWs(rest[0])
    ensures SplitWs(a + " " + rest, limit) == [a] + SplitWs(rest, limit - 1)
  {
    var s := a + " " + rest;
    FirstWsIs(s, 0, |a|);
    SkipWsIs(s, |a|, |a| + 1);
    assert s[..|a|] == a;
    assert s[|a| + 1..] == rest;
  }

  /** A line without whitespace is one part. */
  lemma SplitWsWord(a: string, limit: nat)
    requires limit >= 1 && NoWs(a)
    ensures SplitWs(a, limit) == [a]
  {
    if limit > 1 {
      FirstWsIs(a, 0, |a|);
    }
  }

  /**
   * "<n> <command> <argument>": the reference is n, the command the second
   * word, and the argument the rest of the line, spaces included.
   */
  lemma TokeniseReference(n: int, command: string, arg: string, lastNER: int)
    requires IntMin <= n <= IntMax
    requires command != [] && NoWs(command)
    requires arg == [] || !IsWs(arg[0])
    ensures var q := Tokenise(ShowInt(n) + " " + command + " " + arg, lastNER);
            q.numeric && q.ner == n && q.command == command && q.name == arg
  {
    ShowIntNoWs(n);
    ParseShowInt(n);
    var tail := command + " " + arg;
    assert ShowInt(n) + " " + command + " " + arg == ShowInt(n) + " " + tail;
    SplitWsStep(ShowInt(n), tail, 3);
    SplitWsStep(command, arg, 2);
  }

  /** "<n>" alone: the default command (visu) on reference n. */
  lemma TokeniseBareReference(n: int, lastNER: int)
    requires IntMin <= n <= IntMax
    ensures var q := Tokenise(ShowInt(n), lastNER);
            q.numeric && q.ner == n && q.command == "default" && q.name == ""
  {
    ShowIntNoWs(n);
    ParseShowInt(n);
    SplitWsWord(ShowInt(n), 3);
  }

  /**
   * "<command> <name>": a command that is not a number acts on the last
   * reference, and the name is the second word.
   */
  lemma TokeniseCommand(command: string, name: string, lastNER: int)
    requires command != [] && NoWs(command) && ParseInt(command).None?
    requires NoWs(name)
    ensures var q := Tokenise(command + " " + name, lastNER);
            !q.numeric && q.ner == lastNER && q.command == command && q.name == name
  {
    if name == [] {
      SplitWsStep(command, name, 3);
      assert SplitWs(name, 2) == [name];
    } else {
      SplitWsStep(command, name, 3);
      SplitWsWord(name, 2);
    }
  }

  /** The commands of processCommand's switch; any other word is Unknown. */
  datatype Command =
    | Up | Cut | Copy | Visu | Default | Enter | Help | Delete | Past
    | Mkdir | Touch | Find | AddNote | RemoveNote | Note | Exit | Unknown

  /** The case label each command is selected by. */
  function Label(c: Command): string {
    match c
    case Up => ".." case Cut => "cut" case Copy => "copy" case Visu => "visu"
    case Default => "default" case Enter => "." case Help => "help" case Delete => "delete"
    case Past => "past" case Mkdir => "mkdir" case Touch => "touch" case Find => "find"
    case AddNote => "+" case RemoveNote => "-" case Note => "note" case Exit => "exit"
    case Unknown => ""
  }

  /** The switch on the command word. */
  function Classify(word: string): (c: Command)
    ensures c != Unknown ==> Label(c) == word
  {
    if word == ".." then Up
    else if word == "cut" then Cut
    else if word == "copy" then Copy
    else if word == "visu" then Visu
    else if word == "default" then Default
    else if word == "." then Enter
    else if word == "help" then Help
    else if word == "delete" then Delete
    else if word == "past" then Past
    else if word == "mkdir" then Mkdir
    else if word == "touch" then Touch
    else if word == "find" then Find
    else if word == "+" then AddNote
    else if word == "-" then RemoveNote
    else if word == "note" then Note
    else if word == "exit" then Exit
    else Unknown
  }

  /** Each case label selects its own command, so the switch loses no command. */
  lemma ClassifyLabel(c: Command)
    requires c != Unknown
    ensures Classify(Label(c)) == c
  {
  }
}
