/** Splitting a Solidity type into its base and its array suffix, as in `uint8[][4]`. */
module ArraySuffix {
  import opened Wrappers

  predicate IsDigit(c: char) {
    '0' <= c <= '9'
  }

  /** `[]`, or digits between brackets. */
  predicate IsGroup(s: string) {
    |s| >= 2 && s[0] == '[' && s[|s| - 1] == ']' && forall k | 1 <= k < |s| - 1 :: '0' <= s[k] <= '9'
  }

  /** The last position of a character, or -1. */
  function LastIndex(s: string, c: char): (p: int)
    ensures -1 <= p < |s|
    ensures p >= 0 ==> s[p] == c
    ensures forall k | p < k < |s| :: s[k] != c
  {
    if s == "" then -1 else if s[|s| - 1] == c then |s| - 1 else LastIndex(s[..|s| - 1], c)
  }

  predicate EndsInGroup(s: string) {
    var p := LastIndex(s, '[');
    p >= 0 && IsGroup(s[p..])
  }

  /** The base and the suffix: groups are taken off the end as long as there are any. */
  function Split(ty: string): (parts: (string, string))
    ensures parts.0 + parts.1 == ty
    ensures !EndsInGroup(parts.0)
  {
    if EndsInGroup(ty) then
      var p := LastIndex(ty, '[');
      var (base, suffix) := Split(ty[..p]);
      (base, suffix + ty[p..])
    else
      (ty, "")
  }

  function Joined(groups: seq<string>): string {
    if groups == [] then "" else Joined(groups[..|groups| - 1]) + groups[|groups| - 1]
  }

  lemma LastIndexIs(s: string, c: char, p: nat)
    requires p < |s| && s[p] == c && forall k | p < k < |s| :: s[k] != c
    ensures LastIndex(s, c) == p
  {
  }

  lemma GroupBracket(group: string)
    requires IsGroup(group)
    ensures |group| >= 2 && group[0] == '[' && forall k | 1 <= k < |group| :: group[k] != '['
  {
  }

  lemma GroupTaken(front: string, group: string)
    requires IsGroup(group)
    ensures Split(front + group) == (Split(front).0, Split(front).1 + group)
  {
    hide IsGroup, LastIndex;
    var ty, p := front + group, |front|;
    GroupBracket(group);
    assert ty[p..] == group && ty[..p] == front;
    assert forall k | p < k < |ty| :: ty[k] == group[k - p];
    LastIndexIs(ty, '[', p);
  }

  /** The split is the only way to write a type as a base without a last group and a run of groups. */
  lemma {:induction false} SplitIsUnique(base: string, groups: seq<string>)
    requires !EndsInGroup(base)
    requires forall i | 0 <= i < |groups| :: IsGroup(groups[i])
    ensures Split(base + Joined(groups)) == (base, Joined(groups))
  {
    hide IsGroup;
    if groups == [] {
      assert base + Joined(groups) == base;
    } else {
      var init, last := groups[..|groups| - 1], groups[|groups| - 1];
      SplitIsUnique(base, init);
      GroupTaken(base + Joined(init), last);
      assert base + Joined(groups) == base + Joined(init) + last;
    }
  }

  lemma {:induction false} SuffixIsGroups(ty: string) returns (groups: seq<string>)
    ensures forall i | 0 <= i < |groups| :: IsGroup(groups[i])
    ensures Split(ty).1 == Joined(groups)
  {
    groups := [];
    if EndsInGroup(ty) {
      var p := LastIndex(ty, '[');
      var init := SuffixIsGroups(ty[..p]);
      groups := init + [ty[p..]];
      assert groups[..|groups| - 1] == init;
    }
  }

  /**
   A base with an open bracket whose last character cannot be cut off: the bracket itself, or one of
   several bytes.
   */
  predicate Uncut(base: string) {
    LastIndex(base, '[') >= 0 && (base[|base| - 1] == '[' || base[|base| - 1] >= '\U{80}')
  }

  lemma GroupAtEnd(base: string, bracket: int)
    requires bracket == LastIndex(base, '[')
    ensures EndsInGroup(base) <==>
              0 <= bracket < |base| - 1 && base[|base| - 1] == ']' &&
                  forall k | bracket < k < |base| - 1 :: '0' <= base[k] <= '9'
  {
    hide LastIndex;
    if bracket >= 0 {
      var group := base[bracket..];
      assert forall k | bracket <= k < |base| :: base[k] == group[k - bracket];
      assert forall k | 0 <= k < |group| :: group[k] == base[bracket + k];
    }
  }

  lemma SplitOnce(base: string, bracket: nat)
    requires bracket == LastIndex(base, '[') && EndsInGroup(base)
    ensures Split(base) == (Split(base[..bracket]).0, Split(base[..bracket]).1 + base[bracket..])
  {
    hide LastIndex, IsGroup;
  }

  lemma Regroup(a: string, b: string, c: string)
    ensures a + b + c == a + (b + c)
  {
  }

  /** The last group stands at the last open bracket, and taking it off leaves the rest to split. */
  lemma LastGroup(base: string, bracket: int, suffix: string)
    requires bracket == LastIndex(base, '[')
    ensures EndsInGroup(base) <==>
              0 <= bracket < |base| - 1 && base[|base| - 1] == ']' &&
                  forall k | bracket < k < |base| - 1 :: '0' <= base[k] <= '9'
    ensures EndsInGroup(base) ==>
              (Split(base).0, Split(base).1 + suffix) ==
              (Split(base[..bracket]).0, Split(base[..bracket]).1 + (base[bracket..] + suffix))
  {
    hide *;
    GroupAtEnd(base, bracket);
    if EndsInGroup(base) {
      SplitOnce(base, bracket);
      Regroup(Split(base[..bracket]).1, base[bracket..], suffix);
    }
  }

  lemma NothingToTake(base: string, suffix: string)
    requires !EndsInGroup(base)
    ensures Split(base) == (base, "") && Split(base).1 + suffix == suffix
  {
  }

  lemma EmptyGroup(base: string, bracket: int)
    requires bracket == LastIndex(base, '[')
    requires |base| >= 2 && base[|base| - 2..] == "[]"
    ensures bracket == |base| - 2 && base[|base| - 1] == ']'
  {
    assert base[|base| - 2] == base[|base| - 2..][0] && base[|base| - 1] == base[|base| - 2..][1];
  }

  /** No value: the slice between the brackets is out of range. */
  method SplitArraySuffix(ty: string) returns (parts: Option<(string, string)>)
    ensures parts == if Uncut(Split(ty).0) then None else Some(Split(ty))
  {
    hide Split, LastIndex, EndsInGroup;
    var base, suffix := ty, "";
    assert Split(ty).1 + "" == Split(ty).1;
    while true
      invariant Split(ty) == (Split(base).0, Split(base).1 + suffix)
      decreases |base|
    {
      var bracket := LastIndex(base, '[');
      LastGroup(base, bracket, suffix);
      assert bracket >= 0 && bracket == |base| - 2 ==> base[bracket..] == ['[', base[bracket + 1]];
      if |base| >= 2 && base[|base| - 2..] == "[]" {
        EmptyGroup(base, bracket);
        suffix := base[|base| - 2..] + suffix;
        base := base[..|base| - 2];
      } else if bracket >= 0 {
        if bracket == |base| - 1 || base[|base| - 1] >= '\U{80}' {
          NothingToTake(base, suffix);
          return None;
        }
        var inside := base[bracket + 1..|base| - 1];
        if base[|base| - 1] == ']' && (forall k | 0 <= k < |inside| :: IsDigit(inside[k])) && inside != "" {
          assert forall k | bracket < k < |base| - 1 :: base[k] == inside[k - bracket - 1];
          suffix := base[bracket..] + suffix;
          base := base[..bracket];
        } else {
          assert forall k | 0 <= k < |inside| :: inside[k] == base[bracket + 1 + k];
          break;
        }
      } else {
        break;
      }
    }
    NothingToTake(base, suffix);
    return Some((base, suffix));
  }

  lemma PlainSplit(s: string)
    requires '[' !in s
    ensures Split(s) == (s, "") && !Uncut(s)
  {
  }
}
