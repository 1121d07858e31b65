/** How a freshly generated BIP39 mnemonic is shown (wallet_list.go): split at spaces, the
    first twelve words on one line and the rest on the next. */
module Mnemonic {

  /** strings.Split(s, " "): the pieces between single spaces, empty pieces included. */
  function Split(s: string): (ws: seq<string>)
    ensures |ws| >= 1
  {
    if s == [] then [""]
    else if s[0] == ' ' then [""] + Split(s[1..])
    else var rest := Split(s[1..]); [[s[0]] + rest[0]] + rest[1..]
  }

  /** strings.Join(ws, " "). */
  function Join(ws: seq<string>): string {
    if ws == [] then ""
    else if |ws| == 1 then ws[0]
    else ws[0] + " " + Join(ws[1..])
  }

  /** Splitting at spaces and joining with spaces gives the text back. */
  lemma {:induction false} JoinSplit(s: string)
    ensures Join(Split(s)) == s
  {
    if s != [] {
      JoinSplit(s[1..]);
      var rest := Split(s[1..]);
      if s[0] == ' ' {
        assert Join([""] + rest) == "" + " " + Join(rest) by {
          assert ([""] + rest)[1..] == rest;
        }
      } else {
        var ws := [[s[0]] + rest[0]] + rest[1..];
        if |rest| == 1 {
          assert Join(ws) == [s[0]] + rest[0];
        } else {
          assert ws[1..] == rest[1..];
          assert Join(rest) == rest[0] + " " + Join(rest[1..]);
        }
        assert s == [s[0]] + s[1..];
      }
    }
  }

  /** Joining two non-empty word lists puts one space between their joins. */
  lemma {:induction false} JoinAppend(a: seq<string>, b: seq<string>)
    requires |a| >= 1 && |b| >= 1
    ensures Join(a + b) == Join(a) + " " + Join(b)
  {
    if |a| > 1 {
      JoinAppend(a[1..], b);
      assert (a + b)[1..] == a[1..] + b;
    } else {
      assert (a + b)[1..] == b;
    }
  }

  /** The text shown for a generated mnemonic of at least twelve words. */
  function SecretWordsText(mnemonic: string): string
    requires |Split(mnemonic)| >= 12
  {
    var words := Split(mnemonic);
    Join(words[..12]) + "\n" + Join(words[12..])
  }

  /** For a mnemonic of more than twelve words, the text shown is the mnemonic itself with the
      space after the twelfth word turned into a line break. */
  lemma SecretWordsBreakLine(mnemonic: string)
    requires |Split(mnemonic)| > 12
    ensures var p := |Join(Split(mnemonic)[..12])|;
      && p < |mnemonic| && mnemonic[p] == ' '
      && SecretWordsText(mnemonic) == mnemonic[..p] + "\n" + mnemonic[p + 1..]
  {
    var words := Split(mnemonic);
    JoinSplit(mnemonic);
    JoinAppend(words[..12], words[12..]);
    assert words[..12] + words[12..] == words;
    var p := |Join(words[..12])|;
    assert mnemonic == Join(words[..12]) + " " + Join(words[12..]);
    assert mnemonic[..p] == Join(words[..12]);
    assert mnemonic[p + 1..] == Join(words[12..]);
  }
}
