/**
 * The three content banks (compliments, jokes, ASCII art) and the random choice of
 * one entry. The random source is a parameter: the draw `r` that R.nextInt(n)
 * returns, which Java promises lies in [0, n).
 */
module Content {
  import opened Wrappers
  import Menu

  datatype Bank = Compliments | Jokes | Arts

  /** The number of entries in each bank's literal array; never 0, so R.nextInt(Size(b)) is defined. */
  function Size(b: Bank): (n: nat)
    ensures n >= 1
  {
    match b
    case Compliments => 6
    case Jokes => 4
    case Arts => 3
  }

  /** The bank a menu command shows an entry of, if any. */
  function BankOf(c: Menu.Command): (b: Option<Bank>)
    ensures b.Some? <==> c in {Menu.Compliment, Menu.Joke, Menu.AsciiArt}
    ensures b == Some(Compliments) <==> c == Menu.Compliment
    ensures b == Some(Jokes) <==> c == Menu.Joke
    ensures b == Some(Arts) <==> c == Menu.AsciiArt
  {
    match c
    case Compliment => Some(Compliments)
    case Joke => Some(Jokes)
    case AsciiArt => Some(Arts)
    case _ => None
  }

  /**
   * The switch sends exactly "1", "2" and "3" to the compliment, joke and art banks,
   * and no other choice to any bank.
   */
  lemma SwitchShowsBank(t: string)
    ensures (Menu.ParseCommand(t).Some? && BankOf(Menu.ParseCommand(t).value) == Some(Compliments)) <==> t == "1"
    ensures (Menu.ParseCommand(t).Some? && BankOf(Menu.ParseCommand(t).value) == Some(Jokes)) <==> t == "2"
    ensures (Menu.ParseCommand(t).Some? && BankOf(Menu.ParseCommand(t).value) == Some(Arts)) <==> t == "3"
    ensures (Menu.ParseCommand(t).Some? && BankOf(Menu.ParseCommand(t).value).Some?) <==> t in {"1", "2", "3"}
  {
  }

  /**
   * The entry the bank's method prints for the draw `r`: its literal array has
   * `Size(b)` entries, and R.nextInt(Size(b)) picks one of them.
   */
  function Show<T>(b: Bank, entries: seq<T>, r: int): (x: T)
    requires |entries| == Size(b) && 0 <= r < Size(b)
    ensures x in entries
  {
    Pick(entries, r)
  }

  /**
   * `bank[R.nextInt(bank.length)]`: the entry shown for the draw `r`, returned
   * unchanged, so every entry is shown for exactly one draw.
   */
  function Pick<T>(bank: seq<T>, r: int): (x: T)
    requires 0 <= r < |bank|
    ensures x in bank
  {
    bank[r]
  }

  /** Different draws show different entries of a bank without repeated entries. */
  lemma PickInjective<T>(bank: seq<T>, r: int, s: int)
    requires 0 <= r < |bank| && 0 <= s < |bank| && r != s
    requires forall i, j :: 0 <= i < j < |bank| ==> bank[i] != bank[j]
    ensures Pick(bank, r) != Pick(bank, s)
  {
    if r < s {
      assert bank[r] != bank[s];
    } else {
      assert bank[s] != bank[r];
    }
  }

  /** Every entry of a bank is shown for some draw. */
  lemma PickCovers<T>(bank: seq<T>, x: T) returns (r: int)
    requires x in bank
    ensures 0 <= r < |bank| && Pick(bank, r) == x
  {
    r :| 0 <= r < |bank| && bank[r] == x;
  }
}
