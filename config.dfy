/**
 * `Settings.cors_origins_list` of app/config.py: the comma-separated
 * `cors_origins` setting split on `,` with each piece stripped.
 *
 * `str.strip()` removes Unicode whitespace; this model removes the ASCII
 * characters for which Python's `str.isspace` holds.
 */
module Config {

  /** The settings the application reads from its environment. */
  datatype Settings = Settings(
    databaseUrl: string,
    jwtSecretKey: string,
    jwtAlgorithm: string,
    accessTokenExpireMinutes: int,
    refreshTokenExpireMinutes: int,
    corsOrigins: string,
    projectName: string,
    debug: bool)

  /** ASCII whitespace as Python's `str.isspace` sees it: space, \t \n \v \f \r and \x1c-\x1f. */
  predicate IsSpace(c: char) {
    c == ' ' || '\t' <= c <= '\r' || '\U{1C}' <= c <= '\U{1F}'
  }

  /** The number of occurrences of `c` in `s`. */
  function Count(s: string, c: char): nat {
    if s == [] then 0 else (if s[0] == c then 1 else 0) + Count(s[1..], c)
  }

  /** `s.split(sep)` for a one-character separator. */
  function Split(s: string, sep: char): (r: seq<string>)
    ensures |r| >= 1
  {
    if s == [] then [""]
    else
      var rest := Split(s[1..], sep);
      if s[0] == sep then [""] + rest else [[s[0]] + rest[0]] + rest[1..]
  }

  /** `sep.join(parts)`, the inverse of `Split`. */
  function Join(parts: seq<string>, sep: char): string
    requires |parts| >= 1
  {
    if |parts| == 1 then parts[0] else parts[0] + [sep] + Join(parts[1..], sep)
  }

  /** Splitting gives one piece more than there are separators. */
  lemma {:induction false} SplitCount(s: string, sep: char)
    ensures |Split(s, sep)| == Count(s, sep) + 1
  {
    if s != [] {
      SplitCount(s[1..], sep);
    }
  }

  /** No piece contains the separator. */
  lemma {:induction false} SplitPiecesFree(s: string, sep: char)
    ensures forall i :: 0 <= i < |Split(s, sep)| ==> sep !in Split(s, sep)[i]
  {
    if s != [] {
      SplitPiecesFree(s[1..], sep);
      var rest := Split(s[1..], sep);
      if s[0] != sep {
        assert sep !in rest[0];
        assert sep !in [s[0]] + rest[0];
      }
    }
  }

  /** Joining the pieces with the separator gives back the input: the pieces are the input's segments, in order. */
  lemma {:induction false} SplitJoin(s: string, sep: char)
    ensures Join(Split(s, sep), sep) == s
  {
    if s != [] {
      SplitJoin(s[1..], sep);
      var rest := Split(s[1..], sep);
      if s[0] == sep {
        assert Split(s, sep) == [""] + rest;
        assert Join(Split(s, sep), sep) == "" + [sep] + Join(rest, sep);
        assert s == [s[0]] + s[1..];
      } else {
        var parts := Split(s, sep);
        assert parts[0] == [s[0]] + rest[0] && parts[1..] == rest[1..];
        if |rest| == 1 {
          assert Join(parts, sep) == [s[0]] + rest[0];
        } else {
          assert Join(rest, sep) == rest[0] + [sep] + Join(rest[1..], sep);
          assert Join(parts, sep) == [s[0]] + rest[0] + [sep] + Join(rest[1..], sep);
        }
        assert s == [s[0]] + s[1..];
      }
    }
  }

  /** `s.lstrip()`: the longest suffix that does not start with whitespace. */
  function TrimStart(s: string): (r: string)
    ensures |r| <= |s| && r == s[|s| - |r|..]
    ensures forall k :: 0 <= k < |s| - |r| ==> IsSpace(s[k])
    ensures r == [] || !IsSpace(r[0])
  {
    if s != [] && IsSpace(s[0]) then TrimStart(s[1..]) else s
  }

  /** `s.rstrip()`: the longest prefix that does not end with whitespace. */
  function TrimEnd(s: string): (r: string)
    ensures |r| <= |s| && r == s[..|r|]
    ensures forall k :: |r| <= k < |s| ==> IsSpace(s[k])
    ensures r == [] || !IsSpace(r[|r| - 1])
  {
    if s != [] && IsSpace(s[|s| - 1]) then TrimEnd(s[..|s| - 1]) else s
  }

  /**
   * `s.strip()`: a contiguous part of `s`, everything outside it whitespace,
   * with no whitespace at either end. Whitespace inside is kept.
   */
  function Strip(s: string): (r: string)
    ensures exists i, j ::
      && 0 <= i <= j <= |s| && r == s[i..j]
      && (forall k :: 0 <= k < i ==> IsSpace(s[k]))
      && (forall k :: j <= k < |s| ==> IsSpace(s[k]))
    ensures r == [] || (!IsSpace(r[0]) && !IsSpace(r[|r| - 1]))
  {
    var t := TrimStart(s);
    var r := TrimEnd(t);
    var i := |s| - |t|;
    assert r == s[i..i + |r|];
    r
  }

  /** `Settings.cors_origins_list` */
  function CorsOriginsList(settings: Settings): (r: seq<string>)
    ensures |r| == |Split(settings.corsOrigins, ',')|
    ensures forall i :: 0 <= i < |r| ==> r[i] == Strip(Split(settings.corsOrigins, ',')[i])
  {
    var pieces := Split(settings.corsOrigins, ',');
    seq(|pieces|, i requires 0 <= i < |pieces| => Strip(pieces[i]))
  }

  /**
   * What the origin list promises: one entry per comma plus one, entry `i` is
   * segment `i` stripped, and no entry holds a comma or surrounding whitespace.
   */
  lemma CorsOriginsShape(settings: Settings)
    ensures var r := CorsOriginsList(settings);
      && |r| == Count(settings.corsOrigins, ',') + 1
      && Join(Split(settings.corsOrigins, ','), ',') == settings.corsOrigins
      && forall i :: 0 <= i < |r| ==>
           && ',' !in r[i]
           && (r[i] == [] || (!IsSpace(r[i][0]) && !IsSpace(r[i][|r[i]| - 1])))
  {
    var s := settings.corsOrigins;
    var r := CorsOriginsList(settings);
    SplitCount(s, ',');
    SplitJoin(s, ',');
    SplitPiecesFree(s, ',');
    forall i | 0 <= i < |r|
      ensures ',' !in r[i]
    {
      var piece := Split(s, ',')[i];
      var a, b :| 0 <= a <= b <= |piece| && r[i] == piece[a..b];
      assert forall c :: c in piece[a..b] ==> c in piece;
    }
  }

  /** An empty setting gives one empty origin, never an empty list. */
  lemma EmptyOrigins(settings: Settings)
    requires settings.corsOrigins == ""
    ensures CorsOriginsList(settings) == [""]
  {
  }
}
