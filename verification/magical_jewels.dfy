/** "Little Jhool and the Magical Jewels": how many times can "ruby" be
    spelled from the letters of a string?  The program counts the letters,
    then removes one 'r', 'u', 'b' and 'y' at a time while all four remain. */
module MagicalJewels {
  import opened Counting

  function Min(x: int, y: int): int { if x <= y then x else y }

  /** The fewest of the four letters of "ruby" in `s`. */
  function RubyLimit(s: string): nat {
    Min(Min(Occurrences(s, 'r'), Occurrences(s, 'u')), Min(Occurrences(s, 'b'), Occurrences(s, 'y')))
  }

  /** The letter counts as a map; a letter not in the map counts 0. */
  method LetterCounts(s: string) returns (hash: map<char, int>)
    ensures forall c :: Get(hash, c) == Occurrences(s, c)
  {
    hash := map[];
    for t := 0 to |s|
      invariant forall c :: Get(hash, c) == Occurrences(s[..t], c)
    {
      OccurrencesSnoc(s[..t], s[t]);
      assert s[..t + 1] == s[..t] + [s[t]];
      hash := hash[s[t] := Get(hash, s[t]) + 1];
    }
    assert s[..|s|] == s;
  }

  /** One test case: count the letters, then remove one of each letter of
      "ruby" while all four remain (reading a missing letter adds it with
      count 0). */
  method Rubies(s: string) returns (ct: int)
    ensures ct == RubyLimit(s)
  {
    var counts := LetterCounts(s);
    var hash := counts['r' := Get(counts, 'r')]['u' := Get(counts, 'u')]['b' := Get(counts, 'b')]['y' := Get(counts, 'y')];
    ct := 0;
    while hash['r'] != 0 && hash['u'] != 0 && hash['b'] != 0 && hash['y'] != 0
      invariant 'r' in hash && 'u' in hash && 'b' in hash && 'y' in hash
      invariant hash['r'] == Occurrences(s, 'r') - ct && hash['u'] == Occurrences(s, 'u') - ct
      invariant hash['b'] == Occurrences(s, 'b') - ct && hash['y'] == Occurrences(s, 'y') - ct
      invariant 0 <= ct <= RubyLimit(s)
      decreases hash['r']
    {
      ct := ct + 1;
      hash := hash['r' := hash['r'] - 1]['u' := hash['u'] - 1]['b' := hash['b'] - 1]['y' := hash['y'] - 1];
    }
  }

  /** A letter's count, 0 when absent (what `hash[ch]` reads). */
  function Get(m: map<char, int>, c: char): int {
    if c in m then m[c] else 0
  }

  lemma {:induction false} OccurrencesSnoc(s: string, c: char)
    ensures forall d :: Occurrences(s + [c], d) == Occurrences(s, d) + (if c == d then 1 else 0)
    decreases |s|
  {
    if |s| > 0 {
      OccurrencesSnoc(s[1..], c);
      assert (s + [c])[1..] == s[1..] + [c];
    }
  }

  /** Adding "ruby" to a string spells one more ruby. */
  lemma {:induction false} OneMoreRuby(s: string)
    ensures RubyLimit(s + "ruby") == RubyLimit(s) + 1
  {
    OccurrencesSnoc(s, 'r');
    OccurrencesSnoc(s + "r", 'u');
    OccurrencesSnoc(s + "ru", 'b');
    OccurrencesSnoc(s + "rub", 'y');
    assert s + "r" + "u" == s + "ru";
    assert s + "ru" + "b" == s + "rub";
    assert s + "rub" + "y" == s + "ruby";
  }
}
