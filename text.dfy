/** String helpers shared by the metadata model. */
module Text {

  /** Drops the run of trailing blanks the catalog pads its CHAR columns
      with and keeps everything before it, blanks included. */
  function RightTrim(s: string): (r: string)
    ensures |r| <= |s| && r == s[..|r|]
    ensures r == [] || r[|r| - 1] != ' '
    ensures forall i :: |r| <= i < |s| ==> s[i] == ' '
  {
    s[..TrimmedLength(s)]
  }

  /** The length of s without its trailing blanks. */
  function TrimmedLength(s: string): (n: nat)
    ensures n <= |s| && (n == 0 || s[n - 1] != ' ')
    ensures forall i :: n <= i < |s| ==> s[i] == ' '
  {
    if s == [] || s[|s| - 1] != ' ' then |s| else TrimmedLength(s[..|s| - 1])
  }

  /** The three postconditions of RightTrim pin its result down: any string
      that is a prefix of s, does not end in a blank, and leaves only blanks
      behind, is RightTrim(s). */
  lemma RightTrimUnique(s: string, r: string)
    requires |r| <= |s| && r == s[..|r|]
    requires r == [] || r[|r| - 1] != ' '
    requires forall i :: |r| <= i < |s| ==> s[i] == ' '
    ensures r == RightTrim(s)
  {
  }

  lemma RightTrimIdempotent(s: string)
    ensures RightTrim(RightTrim(s)) == RightTrim(s)
  {
  }

  /** Blanks in front and inside are kept; only the trailing run goes. */
  lemma {:induction false} RightTrimKeepsLeading(lead: string, word: string, pad: nat)
    requires forall i :: 0 <= i < |lead| ==> lead[i] == ' '
    requires word == [] || word[|word| - 1] != ' '
    ensures RightTrim(lead + word + Blanks(pad)) == (if word == [] then [] else lead + word)
  {
    var s := lead + word + Blanks(pad);
    if word == [] {
      assert forall i :: 0 <= i < |s| ==> s[i] == ' ';
      RightTrimUnique(s, []);
    } else {
      var r := lead + word;
      assert s[..|r|] == r;
      RightTrimUnique(s, r);
    }
  }

  function Blanks(n: nat): (r: string)
    ensures |r| == n && forall i :: 0 <= i < n ==> r[i] == ' '
  {
    if n == 0 then [] else Blanks(n - 1) + " "
  }

  /** The concatenation of a sequence of strings, in order. */
  function Concat(parts: seq<string>): (r: string)
    ensures parts == [] ==> r == []
  {
    if parts == [] then [] else parts[0] + Concat(parts[1..])
  }

}
