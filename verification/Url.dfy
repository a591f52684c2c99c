/** The URL object whose components are normalised in place. */
module Url {
  import opened Basics
  import opened UrlEscape
  import AbsPath

  const UNRESERVED: CharacterClass :=
    set c: byte | 0 <= c < 128 && (65 <= c <= 90 || 97 <= c <= 122 || 48 <= c <= 57 || c in {45, 46, 95, 126})

  const PCHAR: CharacterClass := UNRESERVED + SUB_DELIMS + {58, 64}
  const PATH: CharacterClass := PCHAR + {47}
  const QUERY: CharacterClass := PCHAR + {47, 63}
  const USERINFO: CharacterClass := UNRESERVED + SUB_DELIMS + {58}

  /** Escaping with the library's own classes is idempotent and keeps the meaning; "%" is in none of them. */
  lemma LibraryClassesAreStable(s: Bytes, safe: CharacterClass, strict: bool)
    requires safe in {PATH, QUERY, USERINFO}
    ensures Escaped(Escaped(s, safe, strict), safe, strict) == Escaped(s, safe, strict)
    ensures Unescaped(Escaped(s, safe, strict)) == Unescaped(s)
  {
    hide Escaped, Unescaped;
    EscapeIsStable(s, safe, strict);
  }

  class Url {
    var path: Bytes
    var params: Bytes
    var query: Bytes
    var userinfo: Bytes

    constructor (path: Bytes, params: Bytes, query: Bytes, userinfo: Bytes)
      ensures this.path == path && this.params == params && this.query == query && this.userinfo == userinfo
    {
      this.path := path;
      this.params := params;
      this.query := query;
      this.userinfo := userinfo;
    }

    method RemoveDots()
      modifies this`path
      ensures path == AbsPath.Normalised(old(path)) && AbsPath.Normal(path)
    {
      AbsPath.NormalisedIsNormal(path);
      path := AbsPath.Normalise(path);
    }

    method EscapeAll(strict: bool)
      modifies this
      ensures path == Escaped(old(path), PATH, strict) && query == Escaped(old(query), QUERY, strict)
      ensures params == Escaped(old(params), QUERY, strict) && userinfo == Escaped(old(userinfo), USERINFO, strict)
    {
      path := Escape(path, PATH, strict);
      query := Escape(query, QUERY, strict);
      params := Escape(params, QUERY, strict);
      userinfo := Escape(userinfo, USERINFO, strict);
    }

    method UnescapeAll()
      modifies this
      ensures path == Unescaped(old(path)) && query == Unescaped(old(query))
      ensures params == Unescaped(old(params)) && userinfo == Unescaped(old(userinfo))
    {
      path := UnescapeString(path);
      query := UnescapeString(query);
      params := UnescapeString(params);
      userinfo := UnescapeString(userinfo);
    }

    static method UnescapeString(str: Bytes) returns (r: Bytes)
      ensures r == Unescaped(str)
    {
      var buffer := new byte[|str|](i requires 0 <= i < |str| => str[i]);
      assert buffer[..] == str;
      var length := Unescape(buffer);
      r := buffer[..length];
    }
  }
}
