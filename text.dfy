/** String operations the argument projector relies on: trimming a trailing
    character, joining with a separator (and splitting, which undoes a join of a
    non-empty list of parts free of the separator), and the key of a
    `--key=value` token. */
module Text {

  /** Every character of `s` is `c`. */
  predicate AllChar(s: string, c: char) {
    forall i | 0 <= i < |s| :: s[i] == c
  }

  /** `k` copies of `c`. */
  function Repeat(c: char, k: nat): (r: string)
    ensures |r| == k && AllChar(r, c)
  {
    if k == 0 then [] else Repeat(c, k - 1) + [c]
  }

  /** `s` with every trailing `c` removed, as String.TrimEnd(char) does: the
      prefix of `s` that does not end in `c` and leaves only copies of `c` behind. */
  function TrimEnd(s: string, c: char): (r: string)
    ensures |r| <= |s| && r == s[..|r|]
    ensures AllChar(s[|r|..], c)
    ensures r == [] || r[|r| - 1] != c
    decreases |s|
  {
    if s != [] && s[|s| - 1] == c then TrimEnd(s[..|s| - 1], c) else s
  }

  /** The contract of TrimEnd determines its result. */
  lemma TrimEndUnique(s: string, c: char, t: string)
    requires |t| <= |s| && t == s[..|t|]
    requires AllChar(s[|t|..], c)
    requires t == [] || t[|t| - 1] != c
    ensures t == TrimEnd(s, c)
  {
  }

  /** Appending copies of `c` does not change what TrimEnd gives. */
  lemma {:induction false} TrimEndIgnoresAppended(s: string, c: char, k: nat)
    ensures TrimEnd(s + Repeat(c, k), c) == TrimEnd(s, c)
  {
    if k == 0 {
      assert s + Repeat(c, 0) == s;
    } else {
      var longer := s + Repeat(c, k);
      assert longer[..|longer| - 1] == s + Repeat(c, k - 1);
      TrimEndIgnoresAppended(s, c, k - 1);
    }
  }

  /** The parts with one `sep` between consecutive parts, as String.Join does. */
  function Join(parts: seq<string>, sep: char): string
  {
    if |parts| == 0 then ""
    else if |parts| == 1 then parts[0]
    else parts[0] + [sep] + Join(parts[1..], sep)
  }

  /** The pieces of `s` between occurrences of `sep`, empty pieces included. */
  function Split(s: string, sep: char): (r: seq<string>)
    ensures |r| >= 1
    ensures forall i | 0 <= i < |r| :: sep !in r[i]
  {
    if s == [] then [[]]
    else
      var rest := Split(s[1..], sep);
      if s[0] == sep then [[]] + rest
      else [[s[0]] + rest[0]] + rest[1..]
  }

  /** Splitting a string that starts with a piece free of `sep` puts that piece
      in front of the first piece of the remainder. */
  lemma {:induction false} SplitFront(t: string, s: string, sep: char)
    requires sep !in t
    ensures Split(t + s, sep) == [t + Split(s, sep)[0]] + Split(s, sep)[1..]
  {
    if t == [] {
      assert t + s == s;
      var r := Split(s, sep);
      assert t + r[0] == r[0];
      assert [r[0]] + r[1..] == r;
    } else {
      assert (t + s)[1..] == t[1..] + s;
      SplitFront(t[1..], s, sep);
      assert [t[0]] + (t[1..] + Split(s, sep)[0]) == t + Split(s, sep)[0];
    }
  }

  /** Joining and then splitting gives the parts back when no part holds `sep`. */
  lemma {:induction false} SplitJoin(parts: seq<string>, sep: char)
    requires |parts| >= 1
    requires forall i | 0 <= i < |parts| :: sep !in parts[i]
    ensures Split(Join(parts, sep), sep) == parts
  {
    if |parts| == 1 {
      SplitFront(parts[0], [], sep);
      assert parts[0] + [] == parts[0];
    } else {
      var rest := Join(parts[1..], sep);
      SplitJoin(parts[1..], sep);
      assert Join(parts, sep) == parts[0] + ([sep] + rest);
      SplitFront(parts[0], [sep] + rest, sep);
      assert ([sep] + rest)[1..] == rest;
      assert Split([sep] + rest, sep) == [[]] + parts[1..];
      assert parts[0] + [] == parts[0];
      assert parts == [parts[0]] + parts[1..];
    }
  }

  /** Splitting and then joining gives the string back. */
  lemma {:induction false} JoinSplit(s: string, sep: char)
    ensures Join(Split(s, sep), sep) == s
  {
    if s != [] {
      var rest := Split(s[1..], sep);
      JoinSplit(s[1..], sep);
      if s[0] == sep {
        assert ([[]] + rest)[1..] == rest;
      } else if |rest| == 1 {
        assert s == [s[0]] + s[1..];
      } else {
        var parts := [[s[0]] + rest[0]] + rest[1..];
        assert parts[1..] == rest[1..];
        assert Join(rest, sep) == rest[0] + [sep] + Join(rest[1..], sep);
        assert s == [s[0]] + s[1..];
      }
    }
  }

  /** The key of a token: the part before its first `=`, or the whole token
      when it has none. */
  function KeyOf(token: string): string
  {
    if token == [] || token[0] == '=' then [] else [token[0]] + KeyOf(token[1..])
  }

  /** The key of `key=value` is `key`. */
  lemma {:induction false} KeyOfSetting(key: string, value: string)
    requires '=' !in key
    ensures KeyOf(Setting(key, value)) == key
  {
    if key != [] {
      assert (key + "=" + value)[1..] == key[1..] + "=" + value;
      KeyOfSetting(key[1..], value);
      assert key == [key[0]] + key[1..];
    }
  }

  /** The token `key=value`. */
  function Setting(key: string, value: string): string
  {
    key + "=" + value
  }

  /** The key of a bare flag is the flag itself. */
  lemma KeyOfFlag(key: string)
    requires '=' !in key
    ensures KeyOf(key) == key
  {
  }

  /** The keys of a token list, position by position. */
  function Keys(tokens: seq<string>): (r: seq<string>)
    ensures |r| == |tokens|
    ensures forall a | 0 <= a < |tokens| :: r[a] == KeyOf(tokens[a])
  {
    seq(|tokens|, a requires 0 <= a < |tokens| => KeyOf(tokens[a]))
  }

  /** When every token with key `key` is `token` and some token has that key,
      `token` is among the tokens. */
  lemma KeyedTokenPresent(tokens: seq<string>, key: string, token: string)
    requires key in Keys(tokens)
    requires forall a | 0 <= a < |tokens| && KeyOf(tokens[a]) == key :: tokens[a] == token
    ensures token in tokens
  {
    var a :| 0 <= a < |tokens| && Keys(tokens)[a] == key;
  }

  /** The keys of a concatenation are the keys of its parts. */
  lemma KeysAppend(s: seq<string>, t: seq<string>)
    ensures Keys(s + t) == Keys(s) + Keys(t)
  {
  }
}
