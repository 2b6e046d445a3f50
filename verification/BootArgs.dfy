/** The boot-argument routines over the command line itself (Kernel/Platform/bootargs.c). Positions are indices into
    the line; the NUL that ends it stands at its length. */
module BootArgs {
  import opened Common
  import opened BootArgsText

  function At(line: Text, i: nat): char {
    if i < |line| then line[i] else '\0'
  }

  /** The characters from position `i` to the next separator. */
  function WordAt(line: Text, i: nat): Text
    requires i <= |line|
  {
    line[i..][..TokenLength(line[i..])]
  }

  lemma WordStep(line: Text, i: nat)
    requires i <= |line|
    ensures IsArgSep(At(line, i)) ==> WordAt(line, i) == []
    ensures !IsArgSep(At(line, i)) ==> i < |line| && WordAt(line, i) == [line[i]] + WordAt(line, i + 1)
  {
    if i < |line| {
      assert line[i..][1..] == line[i + 1..] && line[i..][0] == line[i];
      if !IsArgSep(line[i]) {
        var n := TokenLength(line[i + 1..]);
        assert TokenLength(line[i..]) == 1 + n;
        assert line[i..][..1 + n] == [line[i]] + line[i + 1..][..n];
      }
    }
  }

  lemma {:induction false} WordSuffix(line: Text, i: nat, k: nat)
    requires i <= |line| && k <= |WordAt(line, i)|
    ensures i + k <= |line| && WordAt(line, i + k) == WordAt(line, i)[k..]
    decreases k
  {
    hide WordAt;
    WordStep(line, i);
    if k > 0 {
      WordSuffix(line, i + 1, k - 1);
    } else {
      assert WordAt(line, i)[0..] == WordAt(line, i);
    }
  }

  lemma WordLies(line: Text, i: nat)
    requires i <= |line|
    ensures var n := |WordAt(line, i)|;
      i + n <= |line| && WordAt(line, i) == line[i..i + n] && IsArgSep(At(line, i + n))
  {
    var n := TokenLength(line[i..]);
    assert line[i..][..n] == line[i..i + n];
    assert n < |line[i..]| ==> line[i..][n] == line[i + n];
  }

  lemma TokensFrom(line: Text, i: nat)
    requires i < |line|
    ensures IsArgSep(line[i]) ==> Tokens(line[i..]) == Tokens(line[i + 1..])
    ensures !IsArgSep(line[i]) ==> i + |WordAt(line, i)| <= |line|
    ensures !IsArgSep(line[i]) ==> Tokens(line[i..]) == [WordAt(line, i)] + Tokens(line[i + |WordAt(line, i)|..])
  {
    var rest := line[i..];
    assert rest[1..] == line[i + 1..] && rest[0] == line[i];
    assert rest[TokenLength(rest)..] == line[i + TokenLength(rest)..];
  }

  method SkipSeparators(line: Text, from: nat) returns (i: nat)
    requires IsCString(line) && from <= |line|
    ensures from <= i <= |line| && (i < |line| ==> !IsArgSep(line[i]))
    ensures Tokens(line[i..]) == Tokens(line[from..])
  {
    hide Tokens;
    i := from;
    while At(line, i) != '\0' && IsArgSep(At(line, i))
      invariant from <= i <= |line|
      invariant Tokens(line[i..]) == Tokens(line[from..])
      decreases |line| - i
    {
      TokensFrom(line, i);
      i := i + 1;
    }
  }

  method SkipWord(line: Text, from: nat) returns (i: nat)
    requires from <= |line|
    ensures i == from + |WordAt(line, from)| <= |line|
  {
    i := from;
    WordStep(line, i);
    while !IsArgSep(At(line, i))
      invariant from <= i <= |line|
      invariant i + |WordAt(line, i)| == from + |WordAt(line, from)|
      decreases |line| - i
    {
      hide WordAt;
      WordStep(line, i);
      i := i + 1;
    }
    WordStep(line, i);
  }

  lemma NameStep(line: Text, i: nat)
    requires i <= |line|
    ensures (IsArgSep(At(line, i)) || At(line, i) == '=') ==> NameLength(WordAt(line, i)) == 0
    ensures IsArgSep(At(line, i)) ==> WordAt(line, i) == []
    ensures At(line, i) == '=' ==> WordAt(line, i) != []
    ensures !IsArgSep(At(line, i)) && At(line, i) != '=' ==>
      && NameLength(WordAt(line, i)) == 1 + NameLength(WordAt(line, i + 1))
      && |WordAt(line, i)| == 1 + |WordAt(line, i + 1)|
  {
    hide WordAt;
    WordStep(line, i);
    assert !IsArgSep(At(line, i)) ==> WordAt(line, i)[1..] == WordAt(line, i + 1);
  }

  /** Where the name of the word at `from` ends. */
  method FindNameEnd(line: Text, from: nat) returns (cp: nat)
    requires from <= |line|
    ensures cp == from + NameLength(WordAt(line, from)) <= |line|
    ensures NameLength(WordAt(line, from)) < |WordAt(line, from)| <==> At(line, cp) == '='
    ensures line[from..cp] == Name(WordAt(line, from))
  {
    hide WordAt, NameLength;
    cp := from;
    while !IsArgSep(At(line, cp)) && At(line, cp) != '='
      invariant from <= cp <= |line|
      invariant cp + NameLength(WordAt(line, cp)) == from + NameLength(WordAt(line, from))
      invariant cp + |WordAt(line, cp)| == from + |WordAt(line, from)|
      decreases |line| - cp
    {
      NameStep(line, cp);
      cp := cp + 1;
    }
    NameStep(line, cp);
    WordLies(line, from);
    assert line[from..cp] == WordAt(line, from)[..cp - from];
  }

  ghost predicate CopiedSoFar(was: seq<nat>, word: Text, i: nat, now: seq<nat>) {
    && i <= |word| && i <= |was| == |now|
    && (forall k :: 0 <= k < i ==> now[k] == word[k] as int)
    && (forall k :: i <= k < |was| ==> now[k] == was[k])
  }

  lemma NothingCopied(was: seq<nat>, word: Text)
    ensures CopiedSoFar(was, word, 0, was)
  {
  }

  lemma CopyOne(was: seq<nat>, word: Text, i: nat, now: seq<nat>)
    requires CopiedSoFar(was, word, i, now) && i < |word| && i < |was|
    ensures CopiedSoFar(was, word, i + 1, now[i := word[i] as int])
  {
  }

  lemma Terminate(was: seq<nat>, word: Text, i: nat, now: seq<nat>)
    requires CopiedSoFar(was, word, i, now) && i < |was|
    ensures now[i := 0] == Overwrite(was, TextBytes(word[..i]) + [0])
  {
  }

  /** Copies a word, cut short at `maxLen` characters, and a NUL; returns the number of characters. */
  method ArgStrLcpy(line: Text, from: nat, to: array<nat>, maxLen: nat) returns (i: nat)
    requires from <= |line| && |Taken(WordAt(line, from), maxLen)| < to.Length
    modifies to
    ensures i == |Taken(WordAt(line, from), maxLen)|
    ensures to[..] == Overwrite(old(to[..]), TextBytes(Taken(WordAt(line, from), maxLen)) + [0])
  {
    hide WordAt, CopiedSoFar, TextBytes, Overwrite;
    ghost var was, word := to[..], WordAt(line, from);
    WordLies(line, from);
    i := 0;
    NothingCopied(was, word);
    while !IsArgSep(At(line, from + i)) && i < maxLen
      invariant i <= |word| && i <= maxLen
      invariant CopiedSoFar(was, word, i, to[..])
      decreases |word| - i
    {
      WordSuffix(line, from, i);
      WordStep(line, from + i);
      CopyOne(was, word, i, to[..]);
      to[i] := line[from + i] as int;
      i := i + 1;
    }
    WordSuffix(line, from, i);
    WordStep(line, from + i);
    assert i < maxLen ==> i == |word|;
    Terminate(was, word, i, to[..]);
    to[i] := 0;
    assert Taken(word, maxLen) == word[..i];
  }

  /** Stores a number at the width asked for; an unusual width gets 32 bits. */
  method ArgNumCpy(val: int, to: array<nat>, maxLen: nat) returns (size: nat)
    requires StoreSize(maxLen) <= to.Length
    modifies to
    ensures size == StoreSize(maxLen)
    ensures to[..] == Overwrite(old(to[..]), Bytes(val, StoreSize(maxLen)))
  {
    hide Bytes;
    size := match maxLen case 0 => 0 case 1 => 1 case 2 => 2 case 3 => 3 case 4 => 4 case 8 => 8 case _ => 4;
    forall k | 0 <= k < size {
      to[k] := Bytes(val, size)[k];
    }
  }

  /** Reads the number after the equal sign at `s`. */
  method GetValAt(line: Text, from: nat) returns (p: Parsed)
    requires from < |line| && line[from] == '='
    ensures p == GetVal(WordAt(line, from + 1))
  {
    hide WordAt;
    var s: nat := from + 1;
    var sign := 1;
    WordStep(line, s);
    if At(line, s) == '-' {
      sign := -1;
      s := s + 1;
      WordStep(line, s);
    }
    assert GetVal(WordAt(line, from + 1)) == Unsigned(sign, WordAt(line, s));
    p := ReadUnsigned(line, s, sign);
  }

  /** The first digit and the radix, then the digits. */
  method ReadUnsigned(line: Text, from: nat, sign: int) returns (p: Parsed)
    requires from <= |line|
    ensures p == Unsigned(sign, WordAt(line, from))
  {
    hide WordAt;
    var intval := (At(line, from) as int) - ('0' as int);
    var s: nat := from + 1;
    var radix: nat := 10;
    WordStep(line, from);
    if intval >= 0 {
      WordStep(line, s);
      assert WordAt(line, from)[1..] == WordAt(line, s);
      assert !IsArgSep(At(line, s)) ==> WordAt(line, from)[2..] == WordAt(line, s + 1);
    }
    if intval == 0 {
      var c := At(line, s);
      if c == 'x' {
        radix, s := 16, s + 1;
      } else if c == 'b' {
        radix, s := 2, s + 1;
      } else if '0' <= c <= '7' {
        intval, radix, s := (c as int) - ('0' as int), 8, s + 1;
      } else if !IsArgSep(c) {
        return NotNumber;
      }
    } else if intval < 0 || intval >= radix {
      return NotNumber;
    }
    p := ReadDigitsAt(line, s, radix, sign, intval);
  }

  /** The loop over the digits, and the suffix that may end them. */
  method ReadDigitsAt(line: Text, from: nat, radix: nat, sign: int, first: nat) returns (p: Parsed)
    requires from <= |line| && IsRadix(radix)
    ensures p == Digits(radix, sign, first, WordAt(line, from))
  {
    hide WordAt;
    var s := from;
    var intval: nat := first;
    WordStep(line, s);
    while !IsArgSep(At(line, s))
      invariant s <= |line|
      invariant Digits(radix, sign, first, WordAt(line, from)) == Digits(radix, sign, intval, WordAt(line, s))
      decreases |line| - s
    {
      var c := line[s];
      WordStep(line, s);
      s := s + 1;
      WordStep(line, s);
      assert WordAt(line, s - 1)[1..] == WordAt(line, s);
      var digit := DigitOf(c, radix);
      if digit >= 0 {
        intval := (intval * radix + digit) % UINT64;
      } else if Suffix(c) != 0 {
        if !IsArgSep(At(line, s)) {
          return NotNumber;
        }
        return Number(Signed64(intval * (sign * Suffix(c))));
      } else {
        return NotNumber;
      }
    }
    WordStep(line, s);
    p := Number(Signed64(intval * sign));
  }

  /** A search over a first word and the rest. */
  lemma OneWord(line: Text, args: nat, arg: Text, maxLen: nat, buf: seq<nat>)
    requires args < |line| && !IsArgSep(line[args])
    ensures args + |WordAt(line, args)| <= |line|
    ensures var rest := Writes(Tokens(line[args + |WordAt(line, args)|..]), arg, maxLen);
      var all := Writes(Tokens(line[args..]), arg, maxLen);
      match ReplyOf(WordAt(line, args), arg, maxLen)
      case Silent => all == rest
      case Value(w) => all == [w] + rest && ApplyAll(buf, all, maxLen) == ApplyAll(Apply(buf, w, maxLen), rest, maxLen)
      case Final(w) => all == [w] && ApplyAll(buf, all, maxLen) == Apply(buf, w, maxLen)
  {
    hide WordAt, Apply, ReplyOf;
    TokensFrom(line, args);
    var t, r := WordAt(line, args), Tokens(line[args + |WordAt(line, args)|..]);
    assert ([t] + r)[1..] == r;
    var all, rest := Writes([t] + r, arg, maxLen), Writes(r, arg, maxLen);
    match ReplyOf(t, arg, maxLen)
    case Silent =>
    case Value(w) => assert all[1..] == rest;
    case Final(w) => assert all[1..] == [];
  }

  /** Deals with the word at `args` whose name ends at `cp`, when it is the one asked for. */
  method Answer(line: Text, args: nat, cp: nat, arg: Text, buf: array<nat>, maxLen: nat)
    returns (ghost r: Reply, stop: bool)
    requires args < |line| && !IsArgSep(line[args]) && cp <= |line|
    requires cp == args + NameLength(WordAt(line, args)) && Answers(WordAt(line, args), arg)
    requires NameLength(WordAt(line, args)) < |WordAt(line, args)| <==> At(line, cp) == '='
    requires WriteSize(ReplyOf(WordAt(line, args), arg, maxLen).write, maxLen) <= buf.Length
    modifies buf
    ensures r == ReplyOf(WordAt(line, args), arg, maxLen) && !r.Silent? && (stop <==> r.Final?)
    ensures buf[..] == Apply(old(buf[..]), r.write, maxLen)
  {
    hide WordAt, NameLength, GetVal, Overwrite, Bytes, TextBytes, Taken, StoreSize;
    ghost var word := WordAt(line, args);
    r := ReplyOf(word, arg, maxLen);
    WordStep(line, args);
    if line[args] == '-' {
      var _ := ArgNumCpy(1, buf, maxLen);
      return r, true;
    }
    WordSuffix(line, args, NameLength(word) + 1);
    assert ValueOf(word) == WordAt(line, cp + 1);
    if arg != [] && arg[0] == '_' {
      var hackLen := if 17 > maxLen then 17 else maxLen;
      var _ := ArgStrLcpy(line, cp + 1, buf, hackLen - 1);
      return r, true;
    }
    var p := GetValAt(line, cp);
    match p {
      case Number(val) =>
        var _ := ArgNumCpy(val, buf, maxLen);
      case NotNumber =>
        if maxLen > 0 {
          var _ := ArgStrLcpy(line, cp + 1, buf, maxLen - 1);
        }
    }
    stop := false;
  }

  lemma AnswerIff(t: Text, arg: Text, maxLen: nat)
    ensures Answers(t, arg) <==> (NameLength(t) < |t| || IsFlag(t)) && Name(t) == arg
    ensures ReplyOf(t, arg, maxLen).Silent? <==> !Answers(t, arg)
  {
  }

  /** When all writes of a search fit, so do the first one and those of the words that follow. */
  lemma FirstFits(line: Text, args: nat, arg: Text, maxLen: nat, length: nat)
    requires args < |line| && !IsArgSep(line[args]) && Answers(WordAt(line, args), arg)
    requires Fit(Writes(Tokens(line[args..]), arg, maxLen), maxLen, length)
    ensures var r := ReplyOf(WordAt(line, args), arg, maxLen);
      && WriteSize(r.write, maxLen) <= length && args + |WordAt(line, args)| <= |line|
      && (r.Value? ==> Fit(Writes(Tokens(line[args + |WordAt(line, args)|..]), arg, maxLen), maxLen, length))
  {
    hide WordAt, Writes, Tokens, Answers, ReplyOf, Fit, WriteSize;
    OneWord(line, args, arg, maxLen, []);
    AnswerIff(WordAt(line, args), arg, maxLen);
    var r, rest := ReplyOf(WordAt(line, args), arg, maxLen), [];
    if r.Value? {
      rest := Writes(Tokens(line[args + |WordAt(line, args)|..]), arg, maxLen);
    } else {
      assert [r.write] + [] == [r.write];
    }
    FitFront(r.write, rest, maxLen, length);
  }

  lemma NothingLeft(arg: Text, maxLen: nat, buf: seq<nat>)
    ensures Writes(Tokens([]), arg, maxLen) == [] && ApplyAll(buf, [], maxLen) == buf
  {
  }

  /** Looks for a boot argument: found exactly when a word of the line answers to it, with the buffer as the writes of
      all answers, one after the other, leave it. */
  method ParseBootArgn(line: Text, arg: Text, buf: array<nat>, maxLen: nat) returns (found: bool)
    requires IsCString(line) && IsCString(arg) && Fit(Writes(Tokens(line), arg, maxLen), maxLen, buf.Length)
    modifies buf
    ensures found <==> exists i :: 0 <= i < |Tokens(line)| && Answers(Tokens(line)[i], arg)
    ensures buf[..] == ApplyAll(old(buf[..]), Writes(Tokens(line), arg, maxLen), maxLen)
  {
    hide WordAt, Writes, Tokens, ApplyAll, Answers, ReplyOf, Apply, Fit, WriteSize;
    ghost var all := Writes(Tokens(line), arg, maxLen);
    ghost var end := ApplyAll(buf[..], all, maxLen);
    FoundIff(Tokens(line), arg, maxLen);
    found := false;
    var args := SkipSeparators(line, 0);
    assert line[0..] == line;
    while args < |line|
      invariant args <= |line| && (args < |line| ==> !IsArgSep(line[args]))
      invariant all != [] <==> found || Writes(Tokens(line[args..]), arg, maxLen) != []
      invariant end == ApplyAll(buf[..], Writes(Tokens(line[args..]), arg, maxLen), maxLen)
      invariant Fit(Writes(Tokens(line[args..]), arg, maxLen), maxLen, buf.Length)
      decreases |line| - args
    {
      OneWord(line, args, arg, maxLen, buf[..]);
      WordStep(line, args);
      var isFlag := line[args] == '-';
      var cp := FindNameEnd(line, args);
      AnswerIff(WordAt(line, args), arg, maxLen);
      if (At(line, cp) == '=' || isFlag) && line[args..cp] == arg {
        ghost var r;
        var stop;
        FirstFits(line, args, arg, maxLen, buf.Length);
        r, stop := Answer(line, args, cp, arg, buf, maxLen);
        found := true;
        if stop {
          return;
        }
      }
      args := SkipWord(line, args);
      args := SkipSeparators(line, args);
    }
    assert line[args..] == [];
    NothingLeft(arg, maxLen, buf[..]);
  }
}
