/**
 The toaster's character tokenizer (`to_next_known_token`).

 One call reads characters from the current position until it recognises a
 token, and reports how many characters it consumed (all of which the caller
 appends to its text buffer). In normal mode a brace is a token by itself and
 a word ended by a space or a newline is the token `Void` when it spells
 `void` or `void*`; other words are dropped. In name mode everything up to
 the first `(` is the function name. The word under construction is local to
 one call, so it starts empty every time.
 */
module Tokenizer {

  datatype Token = Void | CurlyOpen | CurlyClose | FnName(name: string)

  /** What one call yields: a token and the number of characters read, or end of input. */
  datatype Lexed = Lexed(token: Token, used: nat) | Eof

  /** `is_void`: the word names the return-type marker. */
  predicate IsVoid(probe: string)
  {
    probe == "void" || probe == "void*"
  }

  /** Only a space or a newline ends a word in normal mode (a tab does not). */
  predicate EndsWord(c: char)
  {
    c == ' ' || c == '\n'
  }

  /** The word a normal-mode call has accumulated after reading `s[..k]` from its start. */
  function WordBefore(s: string, k: nat): string
    requires k <= |s|
  {
    if k == 0 then []
    else if EndsWord(s[k - 1]) then []
    else WordBefore(s, k - 1) + [s[k - 1]]
  }

  /** Reading `s[k]` ends a normal-mode call: a brace, or a space/newline after `void`/`void*`. */
  predicate Stops(s: string, k: nat)
    requires k < |s|
  {
    s[k] == '{' || s[k] == '}' || (EndsWord(s[k]) && IsVoid(WordBefore(s, k)))
  }

  /** The token a normal-mode call returns for the character that stopped it. */
  function StopToken(c: char): Token
  {
    if c == '{' then CurlyOpen else if c == '}' then CurlyClose else Void
  }

  /** The normal-mode loop from position `i`, with `word` the characters accumulated since the last word end. */
  function LexNormal(s: string, i: nat, word: string): (r: Lexed)
    requires i <= |s|
    requires word == WordBefore(s, i)
    requires forall k | 0 <= k < i :: !Stops(s, k)
    ensures r.Lexed? ==> i < r.used <= |s| && Stops(s, r.used - 1)
    ensures r.Lexed? ==> r.token == StopToken(s[r.used - 1])
    ensures r.Lexed? ==> forall k | 0 <= k < r.used - 1 :: !Stops(s, k)
    ensures r.Eof? <==> forall k | 0 <= k < |s| :: !Stops(s, k)
    decreases |s| - i
  {
    if i == |s| then Eof
    else if s[i] == '{' then (assert Stops(s, i); Lexed(CurlyOpen, i + 1))
    else if s[i] == '}' then (assert Stops(s, i); Lexed(CurlyClose, i + 1))
    else if EndsWord(s[i]) then
      if |word| > 0 && IsVoid(word) then (assert Stops(s, i); Lexed(Void, i + 1))
      else LexNormal(s, i + 1, [])
    else LexNormal(s, i + 1, word + [s[i]])
  }

  /** The name-mode loop from position `i`: every character before the first `(` is part of the name. */
  function LexName(s: string, i: nat, word: string): (r: Lexed)
    requires i <= |s|
    requires word == s[..i] && '(' !in word
    ensures r.Lexed? <==> '(' in s
    ensures r.Lexed? ==> i < r.used <= |s| && s[r.used - 1] == '('
    ensures r.Lexed? ==> r.token == FnName(s[..r.used - 1]) && '(' !in s[..r.used - 1]
    decreases |s| - i
  {
    if i == |s| then (assert s == word; Eof)
    else if s[i] == '(' then Lexed(FnName(word), i + 1)
    else (assert s[..i + 1] == word + [s[i]]; LexName(s, i + 1, word + [s[i]]))
  }

  /**
   `to_next_known_token` on the unread input `s`. In normal mode it stops at
   the first position where `Stops` holds and names the token after the
   character there; in name mode it stops at the first `(` with the text
   before it as the name. End of input is reported as `Eof`.
   */
  function NextToken(s: string, inName: bool): (r: Lexed)
    ensures r.Lexed? ==> 0 < r.used <= |s|
    ensures !inName && r.Lexed? ==>
      && Stops(s, r.used - 1)
      && (forall k | 0 <= k < r.used - 1 :: !Stops(s, k))
      && r.token == StopToken(s[r.used - 1])
    ensures !inName ==> (r.Eof? <==> forall k | 0 <= k < |s| :: !Stops(s, k))
    ensures inName ==> (r.Lexed? <==> '(' in s)
    ensures inName && r.Lexed? ==>
      s[r.used - 1] == '(' && '(' !in s[..r.used - 1] && r.token == FnName(s[..r.used - 1])
  {
    if inName then LexName(s, 0, []) else LexNormal(s, 0, [])
  }
}
