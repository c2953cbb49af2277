/** The resettable option scanner, for option strings without ':'. */
module Getopt {
  import opened Common

  datatype Opt = End | Flag(letter: char) | Unknown

  /** argv[i] holds flags: a '-', and something behind it that does not start with '-'. */
  predicate IsCluster(argv: seq<string>, i: nat) {
    i < |argv| && |argv[i]| >= 2 && argv[i][0] == '-' && argv[i][1] != '-'
  }

  /** argv[i] ends the options and is skipped: anything that starts with "--". */
  predicate IsTerminator(argv: seq<string>, i: nat) {
    i < |argv| && |argv[i]| >= 2 && argv[i][0] == '-' && argv[i][1] == '-'
  }

  /** All flags from the clusters at i and behind it. */
  function FlagsFrom(argv: seq<string>, i: nat): string
    decreases |argv| - i
  {
    if IsCluster(argv, i) then argv[i][1..] + FlagsFrom(argv, i + 1) else ""
  }

  /** The first argument from i on that holds no flags. */
  function ClusterEnd(argv: seq<string>, i: nat): (e: nat)
    ensures i <= e && !IsCluster(argv, e)
    ensures forall j :: i <= j < e ==> IsCluster(argv, j)
    decreases |argv| - i
  {
    if IsCluster(argv, i) then ClusterEnd(argv, i + 1) else i
  }

  /** The index of the first operand: right behind the flags and the terminator, if any. */
  function Operand(argv: seq<string>, i: nat): nat {
    var e := ClusterEnd(argv, i);
    if IsTerminator(argv, e) then e + 1 else e
  }

  /** The operands start behind all leading arguments with flags, and behind the one after these
      if it starts with "--", whether or not more follows in it. */
  lemma OperandIs(argv: seq<string>)
    requires |argv| >= 1
    ensures var e := ClusterEnd(argv, 1);
            && 1 <= e <= |argv|
            && (forall i :: 1 <= i < e ==> |argv[i]| >= 2 && argv[i][0] == '-' && argv[i][1] != '-')
            && (e < |argv| ==> |argv[e]| < 2 || argv[e][0] != '-' || argv[e][1] == '-')
            && Operand(argv, 1)
               == if e < |argv| && |argv[e]| >= 2 && argv[e][0] == '-' && argv[e][1] == '-' then e + 1 else e
  {
    var e := ClusterEnd(argv, 1);
    assert e > 1 ==> IsCluster(argv, e - 1);
    forall i | 1 <= i < e
      ensures |argv[i]| >= 2 && argv[i][0] == '-' && argv[i][1] != '-'
    {
      assert IsCluster(argv, i);
    }
  }

  /** The longest beginning of the flags that holds only known ones. */
  function KnownPrefix(flags: string, optstring: string): (r: string)
    ensures |r| <= |flags| && r == flags[..|r|]
    ensures forall i :: 0 <= i < |r| ==> r[i] in optstring
    ensures |r| < |flags| ==> flags[|r|] !in optstring
  {
    if flags == "" || flags[0] !in optstring then ""
    else [flags[0]] + KnownPrefix(flags[1..], optstring)
  }

  // ----- the scanner and the standard

  /** What a command gets to know: the flags up to the first unknown one, and, if there is none,
      the index of the first operand. */
  datatype Reading = Reading(flags: string, operand: Option<nat>)

  function ReadFrom(all: string, operand: nat, optstring: string): Reading {
    var flags := KnownPrefix(all, optstring);
    Reading(flags, if flags == all then Some(operand) else None)
  }

  function Read(argv: seq<string>, optstring: string): Reading {
    ReadFrom(FlagsFrom(argv, 1), Operand(argv, 1), optstring)
  }

  /** Under the standard an argument holds flags if it starts with '-', unless it is "-" alone
      or "--", which ends the options. */
  predicate IsStandardCluster(argv: seq<string>, i: nat) {
    i < |argv| && |argv[i]| >= 2 && argv[i][0] == '-' && argv[i] != "--"
  }

  function StandardFlags(argv: seq<string>, i: nat): string
    decreases |argv| - i
  {
    if IsStandardCluster(argv, i) then argv[i][1..] + StandardFlags(argv, i + 1) else ""
  }

  function StandardOperand(argv: seq<string>, i: nat): nat
    decreases |argv| - i
  {
    if IsStandardCluster(argv, i) then StandardOperand(argv, i + 1)
    else if i < |argv| && argv[i] == "--" then i + 1
    else i
  }

  function StandardRead(argv: seq<string>, optstring: string): Reading {
    ReadFrom(StandardFlags(argv, 1), StandardOperand(argv, 1), optstring)
  }

  /** argv[i] is "--" followed by more. */
  predicate IsLongArgument(argv: seq<string>, i: nat) {
    IsTerminator(argv, i) && |argv[i]| > 2
  }

  /** Up to the first argument without flags the two rules agree; the standard goes on there
      exactly at "--" followed by more, and its next flag is '-'. */
  lemma {:induction false} StandardGoesOn(argv: seq<string>, i: nat)
    ensures var e := ClusterEnd(argv, i);
            if IsLongArgument(argv, e) then
              exists more :: StandardFlags(argv, i) == FlagsFrom(argv, i) + ("-" + more)
            else
              StandardFlags(argv, i) == FlagsFrom(argv, i) && StandardOperand(argv, i) == Operand(argv, i)
    decreases |argv| - i
  {
    if IsCluster(argv, i) {
      StandardGoesOn(argv, i + 1);
      if IsLongArgument(argv, ClusterEnd(argv, i)) {
        var more :| StandardFlags(argv, i + 1) == FlagsFrom(argv, i + 1) + ("-" + more);
        ConcatAssociates(argv[i][1..], FlagsFrom(argv, i + 1), "-" + more);
      }
    } else if IsLongArgument(argv, i) {
      assert argv[i][1..] == "-" + argv[i][2..];
      ConcatAssociates("-", argv[i][2..], StandardFlags(argv, i + 1));
      assert FlagsFrom(argv, i) + StandardFlags(argv, i) == StandardFlags(argv, i);
    } else if IsTerminator(argv, i) {
      assert argv[i] == "--";
    }
  }

  lemma {:induction false} KnownPrefixAppend(all: string, more: string, optstring: string)
    ensures var flags := KnownPrefix(all, optstring);
            KnownPrefix(all + more, optstring) == if flags == all then all + KnownPrefix(more, optstring) else flags
  {
    if all == "" {
      assert all + more == more && all + KnownPrefix(more, optstring) == KnownPrefix(more, optstring);
    } else {
      assert (all + more)[1..] == all[1..] + more;
      KnownPrefixAppend(all[1..], more, optstring);
      assert all == [all[0]] + all[1..];
      ConcatAssociates([all[0]], all[1..], KnownPrefix(more, optstring));
    }
  }

  ghost predicate HasUnknown(flags: string, optstring: string) {
    exists k :: 0 <= k < |flags| && flags[k] !in optstring
  }

  lemma KnownPrefixIsAll(flags: string, optstring: string)
    ensures KnownPrefix(flags, optstring) == flags <==> !HasUnknown(flags, optstring)
  {
    var known := KnownPrefix(flags, optstring);
    if |known| < |flags| {
      assert flags[|known|] !in optstring;
    }
  }

  /** The scanner agrees with the standard exactly when one of the flags is unknown or the first
      argument without flags is not "--" followed by more. */
  lemma AgreesWithStandard(argv: seq<string>, optstring: string)
    ensures Read(argv, optstring) == StandardRead(argv, optstring) <==>
              HasUnknown(FlagsFrom(argv, 1), optstring) || !IsLongArgument(argv, ClusterEnd(argv, 1))
  {
    KnownPrefixIsAll(FlagsFrom(argv, 1), optstring);
    var all := FlagsFrom(argv, 1);
    StandardGoesOn(argv, 1);
    if IsLongArgument(argv, ClusterEnd(argv, 1)) {
      var more :| StandardFlags(argv, 1) == all + ("-" + more);
      KnownPrefixAppend(all, "-" + more, optstring);
      assert |all + ("-" + more)| > |all|;
    }
  }

  class Scanner {
    var optind: nat
    var optpos: nat

    constructor ()
      ensures optind == 1 && optpos == 1
    {
      optind, optpos := 1, 1;
    }

    /** The cursor fits the argument list, or is about to be reset. */
    ghost predicate Fits(argv: seq<string>)
      reads this
    {
      optind == 0 || (optpos >= 1 && (optpos == 1 || (IsCluster(argv, optind) && optpos < |argv[optind]|)))
    }

    /** The flags not yet returned. */
    ghost function Rest(argv: seq<string>): string
      reads this
      requires Fits(argv)
    {
      if optind == 0 then FlagsFrom(argv, 1)
      else if IsCluster(argv, optind) then argv[optind][optpos..] + FlagsFrom(argv, optind + 1)
      else ""
    }

    ghost function Goal(argv: seq<string>): nat
      reads this
    {
      Operand(argv, if optind == 0 then 1 else optind)
    }

    /** Step behind the current letter. */
    method Advance(argv: seq<string>)
      requires Fits(argv) && optind > 0 && IsCluster(argv, optind)
      modifies this
      ensures Fits(argv) && optind > 0
      ensures old(Rest(argv)) != "" && Rest(argv) == old(Rest(argv))[1..] && Goal(argv) == old(Goal(argv))
      ensures if old(optpos) + 1 == |argv[old(optind)]| then optind == old(optind) + 1 && optpos == 1
              else optind == old(optind) && optpos == old(optpos) + 1
    {
      ghost var rest, arg := Rest(argv), argv[optind];
      assert arg[optpos..] == [arg[optpos]] + arg[optpos + 1..];
      if optpos + 1 == |argv[optind]| {
        optind := optind + 1;
        optpos := 1;
      } else {
        optpos := optpos + 1;
      }
      assert Rest(argv) == rest[1..];
    }

    method FindLetter(letter: char, optstring: string) returns (found: bool)
      ensures found <==> letter in optstring
    {
      var c := 0;
      while c < |optstring|
        invariant 0 <= c <= |optstring| && forall k :: 0 <= k < c ==> optstring[k] != letter
      {
        if optstring[c] == letter {
          return true;
        }
        c := c + 1;
      }
      return false;
    }

    method GetOpt(argv: seq<string>, optstring: string) returns (opt: Opt)
      requires Fits(argv) && ':' !in optstring
      modifies this
      ensures Fits(argv) && optind > 0
      ensures old(Rest(argv)) == "" ==> opt == End && optind == old(Goal(argv))
      ensures old(Rest(argv)) != "" && old(Rest(argv))[0] in optstring ==>
                opt == Flag(old(Rest(argv))[0]) && Rest(argv) == old(Rest(argv))[1..] && Goal(argv) == old(Goal(argv))
      ensures old(Rest(argv)) != "" && old(Rest(argv))[0] !in optstring ==>
                opt == Unknown && Rest(argv) == old(Rest(argv)) && Goal(argv) == old(Goal(argv))
      ensures var i := if old(optind) == 0 then 1 else old(optind);
              && (i < |argv| && |argv[i]| >= 2 && argv[i][0] == '-' && argv[i][1] == '-' ==>
                    opt == End && optind == i + 1)
              && (i >= |argv| || |argv[i]| < 2 || argv[i][0] != '-' ==> opt == End && optind == i)
      ensures opt.Flag? ==>
                var i, p := if old(optind) == 0 then 1 else old(optind), if old(optind) == 0 then 1 else old(optpos);
                && i < |argv| && p < |argv[i]| && opt.letter == argv[i][p]
                && if p + 1 == |argv[i]| then optind == i + 1 && optpos == 1 else optind == i && optpos == p + 1
    {
      if optind == 0 {
        optind := 1;
        optpos := 1;
      }
      assert Rest(argv) == old(Rest(argv)) && Goal(argv) == old(Goal(argv));
      if optind >= |argv| {
        return End;
      }
      if argv[optind] == "" || argv[optind][0] != '-' {
        return End;
      }
      if |argv[optind]| == 1 {
        return End;
      }
      if argv[optind][1] == '-' {
        optind := optind + 1;
        return End;
      }
      var letter := argv[optind][optpos];
      assert Rest(argv)[0] == letter;
      var found := FindLetter(letter, optstring);
      if found {
        Advance(argv);
        return Flag(letter);
      }
      return Unknown;
    }

    /** What every command does: reset the scanner and read flags until the end or an error. */
    method ReadFlags(argv: seq<string>, optstring: string) returns (flags: string, ok: bool)
      requires ':' !in optstring
      modifies this
      ensures Reading(flags, if ok then Some(optind) else None) == Read(argv, optstring)
    {
      optind := 0;
      flags := "";
      ghost var goal, rest := Read(argv, optstring), FlagsFrom(argv, 1);
      ReadsToGoal("", rest, Operand(argv, 1), optstring);
      assert "" + KnownPrefix(rest, optstring) == goal.flags;
      while true
        invariant Fits(argv) && Goal(argv) == Operand(argv, 1) && rest == Rest(argv)
        invariant ReadsTo(flags, rest, Operand(argv, 1), optstring, goal)
        decreases |rest|
      {
        var c := GetOpt(argv, optstring);
        match c {
          case End =>
            return flags, true;
          case Flag(letter) =>
            flags, rest := flags + [letter], rest[1..];
          case Unknown =>
            return flags, false;
        }
      }
    }
  }

  /** With these flags read and the rest to come, reading ends at the goal. */
  ghost predicate ReadsTo(flags: string, rest: string, operand: nat, optstring: string, goal: Reading)
    decreases |rest|
  {
    if rest == "" then goal == Reading(flags, Some(operand))
    else if rest[0] !in optstring then goal == Reading(flags, None)
    else ReadsTo(flags + [rest[0]], rest[1..], operand, optstring, goal)
  }

  lemma {:induction false} ReadsToGoal(flags: string, rest: string, operand: nat, optstring: string)
    ensures var goal := ReadFrom(rest, operand, optstring);
            ReadsTo(flags, rest, operand, optstring, goal.(flags := flags + goal.flags))
    decreases |rest|
  {
    assert flags + "" == flags;
    if rest != "" {
      assert rest == [rest[0]] + rest[1..];
      if rest[0] in optstring {
        ReadsToGoal(flags + [rest[0]], rest[1..], operand, optstring);
        ConcatAssociates(flags, [rest[0]], KnownPrefix(rest[1..], optstring));
      }
    }
  }
}
