/** The reward colour lookup of helpers.js: an ordered table of reward-name fragments with two
    colours each, and `getColorForReward`, which returns the first entry whose fragment occurs
    in the reward's name, or the first entry ("None") when none does. */
module RewardColors {

  /** One row of `colorRewardStrings`: the fragment and the two colours stored with it. */
  datatype Entry = Entry(name: string, primary: int, secondary: int)

  const ColorRewardStrings: seq<Entry> := [
    Entry("None", 0, 0x444444),
    Entry("Empty", 0xffffff, 0),
    Entry("HolidayCurrency", 0xdddddd, 0),
    Entry("Start", 0x667700, 0xffff00),
    Entry("LadderUp", 0x667700, 0xffff00),
    Entry("Ladder.Datetime", 0x337733, 0x00ff00),
    Entry("Ladder", 0x337733, 0x00ff00),
    Entry("Door.Common", 0x996633, 0xffcc00),
    Entry("Door.Datetime", 0x775533, 0xffcc00),
    Entry("Door.Secret", 0x553322, 0xffcc00),
    Entry("Door.Silver", 0x333399, 0x00ffff),
    Entry("Door.Gold", 0x553388, 0xff00ff),
    Entry("Door.Special", 0x772277, 0xff00ff),
    Entry("Key.Silver", 0x9999ff, 0x00ffff),
    Entry("Key.Gold", 0xbb99ff, 0xff00ff),
    Entry("Key.Special", 0xaa99ff, 0xff00ff),
    Entry("Equipment:Common", 0xffdddd, 0),
    Entry("Equipment:Rare", 0xffdddd, 0),
    Entry("Perk", 0xffdddd, 0),
    Entry("SkillResetToken", 0xffdddd, 0),
    Entry("RaidCardCurrency", 0xee99ee, 0),
    Entry("RaidWildcard", 0xee99ee, 0),
    Entry("Pet", 0xdddd88, 0),
    Entry("Diamonds", 0x99eeee, 0),
    Entry("EquipmentShards", 0xdddd88, 0),
    Entry("Avatar", 0x44ff44, 0),
    Entry("Frame", 0x44ff44, 0),
    Entry("Equipment:Legendary", 0xffff44, 0),
    Entry("Equipment", 0x44ff44, 0),
    Entry("SkillPoint", 0xffff44, 0),
    Entry("Fortune", 0xffff44, 0)
  ]

  /** `s.includes(sub)`: `sub` occurs in `s` at some position. */
  predicate Includes(s: string, sub: string) {
    exists i :: 0 <= i <= |s| - |sub| && OccursAt(s, sub, i)
  }

  predicate OccursAt(s: string, sub: string, i: nat) {
    i + |sub| <= |s| && s[i..i + |sub|] == sub
  }

  /** The fragment of entry `k`. */
  function Name(k: nat): string
    requires k < |ColorRewardStrings|
  {
    ColorRewardStrings[k].name
  }

  /** No entry from position `lo` up to (not including) `hi` has its fragment in `reward`. */
  predicate NoneBetween(reward: string, lo: nat, hi: nat)
    requires hi <= |ColorRewardStrings|
  {
    forall k :: lo <= k < hi ==> !Includes(reward, Name(k))
  }

  /** The `for (el of colorRewardStrings)` loop of `getColorForReward`, from position `i` on,
      with the `return colorRewardStrings[0]` after it. */
  function MatchFrom(reward: string, i: nat): Entry
    requires i <= |ColorRewardStrings|
    decreases |ColorRewardStrings| - i
  {
    if i == |ColorRewardStrings| then ColorRewardStrings[0]
    else if Includes(reward, Name(i)) then ColorRewardStrings[i]
    else MatchFrom(reward, i + 1)
  }

  /** `getColorForReward(reward)`. It only reads the table, which is a constant. */
  function GetColorForReward(reward: string): Entry {
    MatchFrom(reward, 0)
  }

  // ---------------------------------------------------------------------------------------
  // What the lookup promises for every reward

  lemma {:induction false} MatchFromIn(reward: string, i: nat)
    requires i <= |ColorRewardStrings|
    ensures MatchFrom(reward, i) in ColorRewardStrings
    decreases |ColorRewardStrings| - i
  {
    if i < |ColorRewardStrings| && !Includes(reward, Name(i)) {
      MatchFromIn(reward, i + 1);
    }
  }

  /** The result is always a row of the table. */
  lemma Membership(reward: string)
    ensures GetColorForReward(reward) in ColorRewardStrings
  {
    MatchFromIn(reward, 0);
  }

  lemma {:induction false} FirstMatchFrom(reward: string, i: nat, j: nat)
    requires i <= j < |ColorRewardStrings|
    requires Includes(reward, Name(j)) && NoneBetween(reward, i, j)
    ensures MatchFrom(reward, i) == ColorRewardStrings[j]
    decreases j - i
  {
    if i < j {
      assert !Includes(reward, Name(i)) && NoneBetween(reward, i + 1, j);
      FirstMatchFrom(reward, i + 1, j);
    }
  }

  /** When entry `j` is the first whose fragment occurs in the reward, the result is entry `j`. */
  lemma FirstMatch(reward: string, j: nat)
    requires j < |ColorRewardStrings|
    requires Includes(reward, Name(j)) && NoneBetween(reward, 0, j)
    ensures GetColorForReward(reward) == ColorRewardStrings[j]
  {
    FirstMatchFrom(reward, 0, j);
  }

  lemma {:induction false} FallbackFrom(reward: string, i: nat)
    requires i <= |ColorRewardStrings|
    requires NoneBetween(reward, i, |ColorRewardStrings|)
    ensures MatchFrom(reward, i) == ColorRewardStrings[0]
    decreases |ColorRewardStrings| - i
  {
    if i < |ColorRewardStrings| {
      FallbackFrom(reward, i + 1);
    }
  }

  /** When no fragment occurs in the reward, the result is entry 0, `None`. */
  lemma Fallback(reward: string)
    requires NoneBetween(reward, 0, |ColorRewardStrings|)
    ensures GetColorForReward(reward) == ColorRewardStrings[0]
  {
    FallbackFrom(reward, 0);
  }

  lemma {:induction false} CasesFrom(reward: string, i: nat)
    requires i <= |ColorRewardStrings| && NoneBetween(reward, 0, i)
    ensures NoneBetween(reward, 0, |ColorRewardStrings|)
      || exists j :: i <= j < |ColorRewardStrings| && Includes(reward, Name(j)) && NoneBetween(reward, 0, j)
    decreases |ColorRewardStrings| - i
  {
    if i < |ColorRewardStrings| && !Includes(reward, Name(i)) {
      CasesFrom(reward, i + 1);
    }
  }

  /** Every reward falls under `FirstMatch` for some entry or under `Fallback`, so the two
      determine the result. */
  lemma Cases(reward: string)
    ensures NoneBetween(reward, 0, |ColorRewardStrings|)
      || exists j :: 0 <= j < |ColorRewardStrings| && Includes(reward, Name(j)) && NoneBetween(reward, 0, j)
  {
    CasesFrom(reward, 0);
  }

  /** Two runs of misses make one. */
  lemma NoneBetweenJoin(reward: string, lo: nat, mid: nat, hi: nat)
    requires lo <= mid <= hi <= |ColorRewardStrings|
    requires NoneBetween(reward, lo, mid) && NoneBetween(reward, mid, hi)
    ensures NoneBetween(reward, lo, hi)
  {
  }

  // ---------------------------------------------------------------------------------------
  // Deciding `includes` on the table's fragments

  /** A fragment holding a character the string lacks does not occur in it. */
  lemma MissingChar(s: string, sub: string, k: nat)
    requires k < |sub| && sub[k] !in s
    ensures !Includes(s, sub)
  {
    forall i: nat | i + |sub| <= |s| ensures !OccursAt(s, sub, i) {
      assert s[i..i + |sub|][k] == s[i + k] && s[i + k] in s;
    }
  }

  /** A fragment in which `sub[k]` is followed by `sub[k + 1]` does not occur in a string where
      `sub[k]` is never followed by `sub[k + 1]`. */
  lemma MissingPair(s: string, sub: string, k: nat)
    requires k + 1 < |sub|
    requires forall i :: 0 <= i < |s| - 1 && s[i] == sub[k] ==> s[i + 1] != sub[k + 1]
    ensures !Includes(s, sub)
  {
    forall i: nat | i + |sub| <= |s| ensures !OccursAt(s, sub, i) {
      assert s[i..i + |sub|][k] == s[i + k] && s[i..i + |sub|][k + 1] == s[i + k + 1];
    }
  }

  /** A string includes each of its prefixes. */
  lemma PrefixIncluded(s: string, n: nat)
    requires n <= |s|
    ensures Includes(s, s[..n])
  {
    assert OccursAt(s, s[..n], 0);
  }

  // ---------------------------------------------------------------------------------------
  // Why the table's order matters

  /** A short reward without `N`, `E`, `H` or `S` misses the first six fragments. */
  lemma LadderMisses(s: string)
    requires 'N' !in s && 'E' !in s && 'H' !in s && 'S' !in s && |s| < 8
    ensures NoneBetween(s, 0, 6)
  {
    forall k | 0 <= k < 6 ensures !Includes(s, Name(k)) {
      if k == 0 { MissingChar(s, Name(k), 0); }
      else if k == 1 { MissingChar(s, Name(k), 0); }
      else if k == 2 { MissingChar(s, Name(k), 0); }
      else if k == 3 { MissingChar(s, Name(k), 0); }
    }
  }

  /** "Ladder" gets the `Ladder` entry: `LadderUp` and `Ladder.Datetime`, placed before it,
      are longer than the reward, and no earlier fragment occurs in it. */
  lemma LadderReward()
    ensures GetColorForReward("Ladder") == ColorRewardStrings[6]
    ensures ColorRewardStrings[6].name == "Ladder"
  {
    var s := "Ladder";
    LadderMisses(s);
    PrefixIncluded(s, 6);
    assert s[..6] == Name(6);
    FirstMatch(s, 6);
  }

  /** A reward without `N`, `E`, `H`, `S` or `U` misses the first five fragments. */
  lemma DatetimeMisses(s: string)
    requires 'N' !in s && 'E' !in s && 'H' !in s && 'S' !in s && 'U' !in s
    ensures NoneBetween(s, 0, 5)
  {
    forall k | 0 <= k < 5 ensures !Includes(s, Name(k)) {
      if k == 0 { MissingChar(s, Name(k), 0); }
      else if k == 1 { MissingChar(s, Name(k), 0); }
      else if k == 2 { MissingChar(s, Name(k), 0); }
      else if k == 3 { MissingChar(s, Name(k), 0); }
      else { MissingChar(s, Name(k), 6); }
    }
  }

  lemma DatetimeAlphabet()
    ensures forall c :: c in Name(5) ==> c in {'L', 'a', 'd', 'e', 'r', '.', 'D', 't', 'i', 'm'}
  {
  }

  lemma DatetimeMissesEarlier()
    ensures NoneBetween(Name(5), 0, 5)
  {
    DatetimeAlphabet();
    DatetimeMisses(Name(5));
  }

  /** Every string includes itself. */
  lemma SelfIncluded(s: string)
    ensures Includes(s, s)
  {
    assert OccursAt(s, s, 0);
  }

  /** "Ladder.Datetime" gets its own entry, not the later `Ladder` entry it also includes. */
  lemma LadderDatetimeReward()
    ensures Name(5) == "Ladder.Datetime"
    ensures GetColorForReward(Name(5)) == ColorRewardStrings[5]
  {
    DatetimeMissesEarlier();
    SelfIncluded(Name(5));
    FirstMatch(Name(5), 5);
  }

  lemma LadderInDatetime()
    ensures Includes(Name(5), Name(6))
  {
    PrefixIncluded(Name(5), 6);
    assert Name(5)[..6] == Name(6);
  }

  /** Entries 2 to 5 hold an `H`, `S`, `U` or `.`. */
  lemma StartsMiss(s: string)
    requires 'H' !in s && 'S' !in s && 'U' !in s && '.' !in s
    ensures NoneBetween(s, 2, 6)
  {
    forall k | 2 <= k < 6 ensures !Includes(s, Name(k)) {
      if k == 2 { MissingChar(s, Name(k), 0); }
      else if k == 3 { MissingChar(s, Name(k), 0); }
      else if k == 4 { MissingChar(s, Name(k), 6); }
      else { MissingChar(s, Name(k), 6); }
    }
  }

  /** Entries 7 to 15, the doors and keys, hold a `.`. */
  lemma DoorsAndKeysMiss(s: string)
    requires '.' !in s
    ensures NoneBetween(s, 7, 16)
  {
    forall k | 7 <= k < 16 ensures !Includes(s, Name(k)) {
      if k < 13 { MissingChar(s, Name(k), 4); }
      else { MissingChar(s, Name(k), 3); }
    }
  }

  /** Entries 16 to 26 hold a `C`, `R`, `P`, `S`, `D`, `A` or `F`. */
  lemma OthersMiss(s: string)
    requires 'C' !in s && 'R' !in s && 'P' !in s && 'S' !in s && 'D' !in s && 'A' !in s && 'F' !in s
    ensures NoneBetween(s, 16, 27)
  {
    forall k | 16 <= k < 27 ensures !Includes(s, Name(k)) {
      if k == 16 { MissingChar(s, Name(k), 10); }
      else if k == 17 { MissingChar(s, Name(k), 10); }
      else if k == 24 { MissingChar(s, Name(k), 9); }
      else { MissingChar(s, Name(k), 0); }
    }
  }

  lemma LegendaryAlphabet()
    ensures forall c :: c in Name(27) ==> c in {'E', 'q', 'u', 'i', 'p', 'm', 'e', 'n', 't', ':', 'L', 'g', 'd', 'a', 'r', 'y'}
  {
  }

  lemma LegendaryMissesNone()
    ensures NoneBetween(Name(27), 0, 1)
  {
    LegendaryAlphabet();
    MissingChar(Name(27), Name(0), 0);
  }

  lemma LegendaryMissesEmpty()
    ensures NoneBetween(Name(27), 1, 2)
  {
    MissingPair(Name(27), Name(1), 0);
  }

  lemma LegendaryMissesLadder()
    ensures NoneBetween(Name(27), 6, 7)
  {
    MissingPair(Name(27), Name(6), 0);
  }

  lemma LegendaryMissesDoors()
    ensures NoneBetween(Name(27), 2, 6) && NoneBetween(Name(27), 7, 16)
  {
    LegendaryAlphabet();
    StartsMiss(Name(27));
    DoorsAndKeysMiss(Name(27));
  }

  lemma LegendaryMissesOthers()
    ensures NoneBetween(Name(27), 16, 27)
  {
    LegendaryAlphabet();
    OthersMiss(Name(27));
  }

  lemma LegendaryMissesEarlier()
    ensures NoneBetween(Name(27), 0, 27)
  {
    LegendaryMissesNone();
    LegendaryMissesEmpty();
    LegendaryMissesDoors();
    LegendaryMissesLadder();
    LegendaryMissesOthers();
  }

  /** "Equipment:Legendary" gets its own entry, not the later `Equipment` entry it also
      includes. */
  lemma LegendaryReward()
    ensures Name(27) == "Equipment:Legendary"
    ensures GetColorForReward(Name(27)) == ColorRewardStrings[27]
  {
    LegendaryMissesEarlier();
    SelfIncluded(Name(27));
    FirstMatch(Name(27), 27);
  }

  lemma EquipmentInLegendary()
    ensures Includes(Name(27), Name(28))
  {
    PrefixIncluded(Name(27), 9);
    assert Name(27)[..9] == Name(28);
  }

  /** A reward naming no fragment falls back to the `None` entry. */
  lemma UnknownReward()
    ensures GetColorForReward("Gem") == ColorRewardStrings[0]
  {
    var s := "Gem";
    forall k | 0 <= k < |ColorRewardStrings| ensures !Includes(s, Name(k)) {
      if k == 22 {
        MissingChar(s, Name(k), 0);
      }
    }
    Fallback(s);
  }
}
