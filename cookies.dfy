/** `getCookie` (static/js/cart.js): reads one cookie out of `document.cookie`, for the
    CSRF token the cart requests send. The cookie string and `decodeURIComponent` are
    parameters: the first is browser state, the second a library call. */
module Cookies {
  import opened Basics

  /** `String.prototype.split` on a one-character separator: the pieces between
      separators, empty ones included, and always at least one. */
  function Split(s: string, sep: char): (r: seq<string>)
    ensures |r| >= 1
    ensures forall i :: 0 <= i < |r| ==> sep !in r[i]
    decreases |s|
  {
    if s == [] then [""]
    else if s[0] == sep then [""] + Split(s[1..], sep)
    else
      var rest := Split(s[1..], sep);
      [[s[0]] + rest[0]] + rest[1..]
  }

  /** The pieces glued back together with the separator between them. */
  function Join(parts: seq<string>, sep: char): string
    requires |parts| >= 1
    decreases |parts|
  {
    if |parts| == 1 then parts[0] else parts[0] + [sep] + Join(parts[1..], sep)
  }

  /** Splitting loses nothing: the pieces and the separators make up the string. */
  lemma {:induction false} JoinSplit(s: string, sep: char)
    ensures Join(Split(s, sep), sep) == s
    decreases |s|
  {
    if s == [] {
    } else if s[0] == sep {
      JoinSplit(s[1..], sep);
      assert s == [sep] + s[1..];
    } else {
      JoinSplit(s[1..], sep);
      var rest := Split(s[1..], sep);
      var r := Split(s, sep);
      assert r[0] == [s[0]] + rest[0] && r[1..] == rest[1..];
      if |rest| == 1 {
        assert s == [s[0]] + rest[0];
      } else {
        assert Join(rest, sep) == rest[0] + [sep] + Join(rest[1..], sep);
        assert s == [s[0]] + s[1..];
      }
    }
  }

  /** The characters `String.prototype.trim` removes: ECMAScript white space and line
      terminators. */
  predicate IsSpace(c: char)
  {
    || c == ' ' || c == '\t' || c == '\n' || c == '\r'
    || c == '\U{B}' || c == '\U{C}' || c == '\U{A0}' || c == '\U{1680}'
    || ('\U{2000}' <= c <= '\U{200A}')
    || c == '\U{2028}' || c == '\U{2029}' || c == '\U{202F}' || c == '\U{205F}'
    || c == '\U{3000}' || c == '\U{FEFF}'
  }

  /** Drops leading white space. */
  function TrimStart(s: string): string
  {
    if s != [] && IsSpace(s[0]) then TrimStart(s[1..]) else s
  }

  /** Drops trailing white space. */
  function TrimEnd(s: string): string
  {
    if s != [] && IsSpace(s[|s| - 1]) then TrimEnd(s[..|s| - 1]) else s
  }

  lemma {:induction false} TrimStartFacts(s: string)
    ensures var r := TrimStart(s);
      && |r| <= |s| && r == s[|s| - |r|..]
      && (r == [] || !IsSpace(r[0]))
      && forall i :: 0 <= i < |s| - |r| ==> IsSpace(s[i])
  {
    if s != [] && IsSpace(s[0]) {
      TrimStartFacts(s[1..]);
      assert s[1..][|s| - 1 - |TrimStart(s)|..] == s[|s| - |TrimStart(s)|..];
    }
  }

  lemma {:induction false} TrimEndFacts(s: string)
    ensures var r := TrimEnd(s);
      && |r| <= |s| && r == s[..|r|]
      && (r == [] || !IsSpace(r[|r| - 1]))
      && forall i :: |r| <= i < |s| ==> IsSpace(s[i])
  {
    if s != [] && IsSpace(s[|s| - 1]) {
      TrimEndFacts(s[..|s| - 1]);
      assert s[..|s| - 1][..|TrimEnd(s)|] == s[..|TrimEnd(s)|];
    }
  }

  /** `r` is `s` less k characters of white space in front and all white space after
      it. */
  ghost predicate StrippedAt(s: string, r: string, k: int)
  {
    && 0 <= k && k + |r| <= |s| && r == s[k..k + |r|]
    && (forall i :: 0 <= i < k ==> IsSpace(s[i]))
    && (forall i :: k + |r| <= i < |s| ==> IsSpace(s[i]))
  }

  /** `String.prototype.trim`. */
  function Trim(s: string): string
  {
    TrimEnd(TrimStart(s))
  }

  /** Trimming removes white space at both ends and nothing else: the result is a slice
      of the string, everything around the slice is white space, and the result neither
      starts nor ends with white space. */
  lemma TrimStrips(s: string)
    ensures StrippedAt(s, Trim(s), |s| - |TrimStart(s)|)
    ensures Trim(s) == [] || (!IsSpace(Trim(s)[0]) && !IsSpace(Trim(s)[|Trim(s)| - 1]))
  {
    var t := TrimStart(s);
    var r := TrimEnd(t);
    var k := |s| - |t|;
    TrimStartFacts(s);
    TrimEndFacts(t);
    assert r == s[k..][..|r|] == s[k..k + |r|];
    assert forall i :: k + |r| <= i < |s| ==> s[i] == t[i - k];
  }

  /** `s.substring(0, n)`: the first n characters, or the whole string when it is
      shorter. */
  function Head(s: string, n: nat): (r: string)
    ensures r <= s
    ensures |r| == if n <= |s| then n else |s|
  {
    if n <= |s| then s[..n] else s
  }

  /** The test of `getCookie`: the first `name.length + 1` characters are `name=`. */
  predicate Names(cookie: string, name: string)
  {
    Head(cookie, |name| + 1) == name + "="
  }

  /** A piece of the cookie string names the cookie once trimmed. */
  predicate PieceNames(piece: string, name: string)
  {
    Names(Trim(piece), name)
  }

  /** The test accepts exactly a piece that starts with the name immediately followed by
      "=": a cookie whose name only begins with `name` (`csrftokenX=...` for `csrftoken`)
      is not it. */
  lemma NamesIff(cookie: string, name: string)
    ensures Names(cookie, name) <==>
      |cookie| > |name| && cookie[..|name|] == name && cookie[|name|] == '='
  {
    if |cookie| > |name| && cookie[..|name|] == name && cookie[|name|] == '=' {
      assert cookie[..|name| + 1] == cookie[..|name|] + [cookie[|name|]];
    }
    if Names(cookie, name) {
      assert |name + "="| == |name| + 1;
      assert (name + "=")[..|name|] == name;
    }
  }

  /** The value of a matching piece: everything after the first `name=`, later "="
      characters included, decoded. */
  function ValueOf(cookie: string, name: string, decode: string -> string): string
    requires Names(cookie, name)
  {
    decode(cookie[|name| + 1..])
  }

  /** Position of the first trimmed piece that names the cookie. */
  function FirstNamed(pieces: seq<string>, name: string): (r: Option<nat>)
    ensures r.None? <==> forall i :: 0 <= i < |pieces| ==> !PieceNames(pieces[i], name)
    ensures r.Some? ==>
      && r.value < |pieces| && PieceNames(pieces[r.value], name)
      && forall i :: 0 <= i < r.value ==> !PieceNames(pieces[i], name)
  {
    if pieces == [] then None
    else if PieceNames(pieces[0], name) then Some(0)
    else
      match FirstNamed(pieces[1..], name)
      case None => None
      case Some(k) => Some(k + 1)
  }

  /** What `getCookie(name)` returns for the cookie string: null for an empty string,
      otherwise the decoded value of the first piece that names the cookie, or null when
      none does. */
  function Lookup(cookie: string, name: string, decode: string -> string): (r: Option<string>)
    ensures cookie == "" ==> r.None?
  {
    if cookie == "" then None
    else
      var pieces := Split(cookie, ';');
      match FirstNamed(pieces, name)
      case None => None
      case Some(i) => Some(ValueOf(Trim(pieces[i]), name, decode))
  }

  /** `getCookie` returns null for an empty cookie string; otherwise it returns the
      decoded value of a piece that names the cookie with no such piece before it, or
      null when no piece names it. */
  lemma LookupFindsFirst(cookie: string, name: string, decode: string -> string)
    ensures cookie == "" ==> Lookup(cookie, name, decode).None?
    ensures Lookup(cookie, name, decode).Some? ==>
      exists i :: FirstNamedAt(Split(cookie, ';'), name, i) &&
        Lookup(cookie, name, decode).value == ValueOf(Trim(Split(cookie, ';')[i]), name, decode)
    ensures Lookup(cookie, name, decode).None? && cookie != "" ==>
      forall i :: 0 <= i < |Split(cookie, ';')| ==> !PieceNames(Split(cookie, ';')[i], name)
  {
    if cookie != "" {
      var pieces := Split(cookie, ';');
      var f := FirstNamed(pieces, name);
      if f.Some? {
        assert FirstNamedAt(pieces, name, f.value);
      }
    }
  }

  /** Piece i names the cookie and no piece before it does. */
  predicate FirstNamedAt(pieces: seq<string>, name: string, i: int)
  {
    && 0 <= i < |pieces| && PieceNames(pieces[i], name)
    && forall j :: 0 <= j < i ==> !PieceNames(pieces[j], name)
  }

  /** `getCookie`: walks the pieces in order and stops at the first one that names the
      cookie. */
  method GetCookie(cookie: string, name: string, decode: string -> string) returns (value: Option<string>)
    ensures value == Lookup(cookie, name, decode)
  {
    value := None;
    if cookie != "" {
      var cookies := Split(cookie, ';');
      var i := 0;
      while i < |cookies|
        invariant 0 <= i <= |cookies|
        invariant forall j :: 0 <= j < i ==> !PieceNames(cookies[j], name)
      {
        var piece := Trim(cookies[i]);
        if Head(piece, |name| + 1) == name + "=" {
          value := Some(decode(piece[|name| + 1..]));
          assert FirstNamedAt(cookies, name, i);
          FirstIsUnique(cookies, name, i);
          break;
        }
        i := i + 1;
      }
    }
  }

  /** The first piece that names the cookie is the one `FirstNamed` finds. */
  lemma FirstIsUnique(pieces: seq<string>, name: string, i: int)
    requires FirstNamedAt(pieces, name, i)
    ensures FirstNamed(pieces, name) == Some(i)
  {
    var f := FirstNamed(pieces, name);
    assert f.Some?;
    if f.value < i {
    } else if f.value > i {
    }
  }
}
