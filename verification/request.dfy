/**
 * The text handling of `get_mixpanel_log`: the query string of an export
 * request, the text whose MD5 digest signs it, the request address, and the
 * repair that turns the line-per-event response body into one JSON array.
 */
module Request {
  import opened Text

  const Endpoint: string := "http://data.mixpanel.com/api/2.0/export"

  /** The four `name=value` pairs of a request, in their fixed order. */
  function Pairs(apiKey: string, expire: int, from: string, until: string): seq<string>
  {
    ["api_key=" + apiKey, "expire=" + Decimal(expire), "from_date=" + from, "to_date=" + until]
  }

  /** `api_key=K&expire=E&from_date=F&to_date=T`. */
  function Params(apiKey: string, expire: int, from: string, until: string): string
  {
    Join(Pairs(apiKey, expire, from, until), "&")
  }

  /** `params.gsub(/&/, "") + api_secret`: what the MD5 digest is taken of. */
  function SignatureInput(params: string, secret: string): string
  {
    ReplaceAll(params, '&', "") + secret
  }

  /** The request address, with the digest `sig` appended as a fifth parameter. */
  function Url(params: string, sig: string): string
  {
    Endpoint + "?" + params + "&sig=" + sig
  }

  lemma DecimalPlain(n: int)
    ensures '&' !in Decimal(n)
  {
  }

  lemma JoinFour(a: string, b: string, c: string, d: string, sep: string)
    ensures Join([a, b, c, d], sep) == a + sep + b + sep + c + sep + d
  {
    var p := [a, b, c, d];
    assert p[1..] == [b, c, d] && p[1..][1..] == [c, d] && p[1..][1..][1..] == [d];
    assert Join([c, d], sep) == c + sep + d;
    assert Join([b, c, d], sep) == b + sep + (c + sep + d);
  }

  lemma Glue(x: string, name: string, value: string)
    ensures x + "&" + (name + value) == x + ("&" + name) + value
  {
  }

  /** The query string reads as the interpolated text of the source. */
  lemma ParamsText(apiKey: string, expire: int, from: string, until: string)
    ensures Params(apiKey, expire, from, until) ==
            "api_key=" + apiKey + "&expire=" + Decimal(expire) + "&from_date=" + from + "&to_date=" + until
  {
    var a := "api_key=" + apiKey;
    var e := Decimal(expire);
    JoinFour(a, "expire=" + e, "from_date=" + from, "to_date=" + until, "&");
    assert "&" + "expire=" == "&expire=";
    assert "&" + "from_date=" == "&from_date=";
    assert "&" + "to_date=" == "&to_date=";
    var x1 := a + "&" + ("expire=" + e);
    Glue(a, "expire=", e);
    var x2 := x1 + "&" + ("from_date=" + from);
    Glue(x1, "from_date=", from);
    Glue(x2, "to_date=", until);
  }

  /** Removing the separators from a join of separator-free parts runs the
      parts together. */
  lemma {:induction false} RemoveJoined(parts: seq<string>, c: char)
    requires forall i :: 0 <= i < |parts| ==> c !in parts[i]
    ensures ReplaceAll(Join(parts, [c]), c, "") == Join(parts, "")
    decreases |parts|
  {
    if |parts| == 1 {
      ReplaceAllPlain(parts[0], c, "");
    } else if |parts| > 1 {
      RemoveJoined(parts[1..], c);
      ReplaceAllAppend(parts[0] + [c], Join(parts[1..], [c]), c, "");
      ReplaceAllAppend(parts[0], [c], c, "");
      ReplaceAllPlain(parts[0], c, "");
      assert ReplaceAll([c], c, "") == "";
      assert parts[0] + "" + Join(parts[1..], "") == parts[0] + Join(parts[1..], "");
    }
  }

  /** The signed text is the parameter names and values run together in their
      fixed order, followed by the secret, as long as the values themselves
      hold no `&`. */
  lemma SignatureInputSpec(apiKey: string, expire: int, from: string, until: string, secret: string)
    requires '&' !in apiKey && '&' !in from && '&' !in until
    ensures SignatureInput(Params(apiKey, expire, from, until), secret) ==
            "api_key=" + apiKey + "expire=" + Decimal(expire) + "from_date=" + from + "to_date=" + until + secret
  {
    var p := Pairs(apiKey, expire, from, until);
    PairsPlain(apiKey, expire, from, until);
    RemoveJoined(p, '&');
    RunTogetherFour(p[0], p[1], p[2], p[3]);
    assert p == [p[0], p[1], p[2], p[3]];
    var a := "api_key=" + apiKey;
    Assoc(a, "expire=", Decimal(expire));
    var b := a + "expire=" + Decimal(expire);
    Assoc(b, "from_date=", from);
    var c := b + "from_date=" + from;
    Assoc(c, "to_date=", until);
  }

  /** Four parts joined with no separator are run together. */
  lemma RunTogetherFour(a: string, b: string, c: string, d: string)
    ensures Join([a, b, c, d], "") == a + b + c + d
  {
    JoinFour(a, b, c, d, "");
    assert a + "" + b + "" + c + "" + d == a + b + c + d;
  }

  lemma Assoc(x: string, y: string, z: string)
    ensures x + (y + z) == x + y + z
  {
  }

  /** Split on `&`, the query part of the address gives back the five
      parameters, in order, as long as no value holds an `&`. */
  lemma QueryFields(apiKey: string, expire: int, from: string, until: string, sig: string)
    requires '&' !in apiKey && '&' !in from && '&' !in until && '&' !in sig
    ensures Fields(Params(apiKey, expire, from, until) + "&sig=" + sig, '&') ==
            Pairs(apiKey, expire, from, until) + ["sig=" + sig]
  {
    var p := Pairs(apiKey, expire, from, until);
    PairsPlain(apiKey, expire, from, until);
    PlainPair("sig=", sig, '&');
    SnocPlain(p, "sig=" + sig, '&');
    SigJoin(p, sig);
    JoinFields(p + ["sig=" + sig], '&');
  }

  /** Appending `&sig=` and the digest to a joined query joins one more pair. */
  lemma SigJoin(p: seq<string>, sig: string)
    requires |p| >= 1
    ensures Join(p, "&") + "&sig=" + sig == Join(p + ["sig=" + sig], "&")
  {
    JoinSnoc(p, "sig=" + sig, "&");
    Glue(Join(p, "&"), "sig=", sig);
    Halves("&sig=", 1);
    assert "&sig="[..1] == "&" && "&sig="[1..] == "sig=";
  }

  lemma SnocPlain(p: seq<string>, x: string, c: char)
    requires forall i :: 0 <= i < |p| ==> c !in p[i]
    requires c !in x
    ensures forall i :: 0 <= i < |p + [x]| ==> c !in (p + [x])[i]
  {
    assert forall i :: 0 <= i < |p| ==> (p + [x])[i] == p[i];
    assert (p + [x])[|p|] == x;
  }

  /** The request address is the endpoint, a `?`, and a query that splits on
      `&` into the five parameters. */
  lemma UrlQuery(apiKey: string, expire: int, from: string, until: string, sig: string)
    requires '&' !in apiKey && '&' !in from && '&' !in until && '&' !in sig
    ensures var u := Url(Params(apiKey, expire, from, until), sig);
            var n := |Endpoint| + 1;
            |u| > n && u[..n] == Endpoint + "?" &&
            Fields(u[n..], '&') == Pairs(apiKey, expire, from, until) + ["sig=" + sig]
  {
    var params := Params(apiKey, expire, from, until);
    var query := params + "&sig=" + sig;
    var head := Endpoint + "?";
    QueryFields(apiKey, expire, from, until, sig);
    assert Url(params, sig) == head + query by {
      Assoc(head, params + "&sig=", sig);
      Assoc(head, params, "&sig=");
    }
    assert (head + query)[..|head|] == head && (head + query)[|head|..] == query;
  }

  lemma Halves(s: string, k: nat)
    requires k <= |s|
    ensures s == s[..k] + s[k..]
  {
  }

  lemma PlainPair(name: string, value: string, c: char)
    requires c !in name && c !in value
    ensures c !in name + value
  {
    assert forall k :: 0 <= k < |name + value| ==> (name + value)[k] != c by {
      forall k | 0 <= k < |name + value|
        ensures (name + value)[k] != c
      {
        if k < |name| {
          assert (name + value)[k] == name[k];
        } else {
          assert (name + value)[k] == value[k - |name|];
        }
      }
    }
  }

  /** No pair of a request holds an `&` when no value does. */
  lemma PairsPlain(apiKey: string, expire: int, from: string, until: string)
    requires '&' !in apiKey && '&' !in from && '&' !in until
    ensures forall i :: 0 <= i < 4 ==> '&' !in Pairs(apiKey, expire, from, until)[i]
  {
    DecimalPlain(expire);
    PlainPair("api_key=", apiKey, '&');
    PlainPair("expire=", Decimal(expire), '&');
    PlainPair("from_date=", from, '&');
    PlainPair("to_date=", until, '&');
  }

  // ---------------------------------------------------------------------
  // The response body
  // ---------------------------------------------------------------------

  /** A byte of the response body. `Net::HTTP` hands the body over as a
      binary string, so `gsub` and the `[0..-3]` slice work on its bytes. */
  newtype byte = x: int | 0 <= x < 0x100

  const Newline: byte := 0x0A
  const Comma: byte := 0x2C
  /** `", "`, the text that replaces each newline. */
  const CommaSpace: seq<byte> := [Comma, 0x20]
  const OpenBracket: byte := 0x5B
  const CloseBracket: byte := 0x5D

  /** `"[#{body.gsub(/\n/, ", ")[0..-3]}]"`. */
  function Repair(body: seq<byte>): seq<byte>
  {
    [OpenBracket] + DropLastTwo(ReplaceAll(body, Newline, CommaSpace)) + [CloseBracket]
  }

  /** A body made of the given lines, each ended by a newline. */
  function Terminated(lines: seq<seq<byte>>): seq<byte>
    decreases |lines|
  {
    if lines == [] then [] else lines[0] + [Newline] + Terminated(lines[1..])
  }

  lemma {:induction false} ReplaceTerminated(lines: seq<seq<byte>>)
    requires |lines| >= 1
    requires forall i :: 0 <= i < |lines| ==> Newline !in lines[i]
    ensures ReplaceAll(Terminated(lines), Newline, CommaSpace) == Join(lines, CommaSpace) + CommaSpace
    decreases |lines|
  {
    var rest := Terminated(lines[1..]);
    ReplaceAllAppend(lines[0] + [Newline], rest, Newline, CommaSpace);
    ReplaceAllAppend(lines[0], [Newline], Newline, CommaSpace);
    ReplaceAllPlain(lines[0], Newline, CommaSpace);
    assert ReplaceAll([Newline], Newline, CommaSpace) == CommaSpace;
    assert Terminated(lines) == lines[0] + [Newline] + rest;
    assert ReplaceAll(Terminated(lines), Newline, CommaSpace) ==
           lines[0] + CommaSpace + ReplaceAll(rest, Newline, CommaSpace);
    if |lines| == 1 {
      assert rest == [];
    } else {
      ReplaceTerminated(lines[1..]);
      assert Join(lines, CommaSpace) == lines[0] + CommaSpace + Join(lines[1..], CommaSpace);
    }
  }

  /** A body of newline-terminated lines becomes the JSON array text of those
      lines; an empty body becomes `[]`. */
  lemma RepairLines(lines: seq<seq<byte>>)
    requires forall i :: 0 <= i < |lines| ==> Newline !in lines[i]
    ensures Repair(Terminated(lines)) == [OpenBracket] + Join(lines, CommaSpace) + [CloseBracket]
  {
    if lines != [] {
      ReplaceTerminated(lines);
      var j := Join(lines, CommaSpace);
      assert DropLastTwo(j + CommaSpace) == j;
    }
  }

  /** A last line without its newline loses its last two bytes, whatever
      characters they belong to; with no line before it, the body is that
      line alone, cut the same way. */
  lemma RepairUnterminated(lines: seq<seq<byte>>, last: seq<byte>)
    requires forall i :: 0 <= i < |lines| ==> Newline !in lines[i]
    requires Newline !in last && |last| >= 2
    ensures Repair(Terminated(lines) + last) ==
            [OpenBracket] + Join(lines + [last[..|last| - 2]], CommaSpace) + [CloseBracket]
  {
    var cut := last[..|last| - 2];
    if lines == [] {
      RepairLineOnly(last);
      assert Terminated(lines) + last == last;
      assert lines + [cut] == [cut];
    } else {
      RepairAfterLines(lines, last);
      DropLastTwoAppend(Join(lines, CommaSpace) + CommaSpace, last);
      JoinSnoc(lines, cut, CommaSpace);
    }
  }

  /** A body without any newline is only cut and bracketed. */
  lemma RepairLineOnly(last: seq<byte>)
    requires Newline !in last
    ensures Repair(last) == [OpenBracket] + DropLastTwo(last) + [CloseBracket]
  {
    ReplaceAllPlain(last, Newline, CommaSpace);
  }

  /** After terminated lines, an unterminated last line follows the `, ` of
      the last newline and is cut. */
  lemma RepairAfterLines(lines: seq<seq<byte>>, last: seq<byte>)
    requires |lines| >= 1
    requires forall i :: 0 <= i < |lines| ==> Newline !in lines[i]
    requires Newline !in last
    ensures Repair(Terminated(lines) + last) ==
            [OpenBracket] + DropLastTwo(Join(lines, CommaSpace) + CommaSpace + last) + [CloseBracket]
  {
    ReplaceTerminated(lines);
    ReplaceAllAppend(Terminated(lines), last, Newline, CommaSpace);
    ReplaceAllPlain(last, Newline, CommaSpace);
  }

  /** A last line of a single byte without its newline vanishes, and the
      comma before it stays: the text ends in `,]`, which is no JSON array.
      A body of that one byte alone becomes `[]`. */
  lemma RepairOneByteLast(lines: seq<seq<byte>>, x: byte)
    requires forall i :: 0 <= i < |lines| ==> Newline !in lines[i]
    requires x != Newline
    ensures lines == [] ==> Repair([x]) == [OpenBracket, CloseBracket]
    ensures lines != [] ==>
              Repair(Terminated(lines) + [x]) == [OpenBracket] + Join(lines, CommaSpace) + [Comma, CloseBracket]
  {
    if lines == [] {
      RepairOneByteAlone(x);
    } else {
      RepairOneByteAfterLines(lines, x);
    }
  }

  /** A body of one byte, without its newline, is cut to nothing. */
  lemma RepairOneByteAlone(x: byte)
    requires x != Newline
    ensures Repair([x]) == [OpenBracket, CloseBracket]
  {
    RepairLineOnly([x]);
    assert DropLastTwo([x]) == [];
    assert [OpenBracket] + [] + [CloseBracket] == [OpenBracket, CloseBracket];
  }

  /** After terminated lines, one byte without its newline leaves `,]`. */
  lemma RepairOneByteAfterLines(lines: seq<seq<byte>>, x: byte)
    requires |lines| >= 1
    requires forall i :: 0 <= i < |lines| ==> Newline !in lines[i]
    requires x != Newline
    ensures Repair(Terminated(lines) + [x]) == [OpenBracket] + Join(lines, CommaSpace) + [Comma, CloseBracket]
  {
    RepairAfterLines(lines, [x]);
    DropSpaceAndByte(Join(lines, CommaSpace), x);
  }

  /** Cutting two bytes from `j, x` leaves `j,`. */
  lemma DropSpaceAndByte(j: seq<byte>, x: byte)
    ensures [OpenBracket] + DropLastTwo(j + CommaSpace + [x]) + [CloseBracket] ==
            [OpenBracket] + j + [Comma, CloseBracket]
  {
    DropLastTwoAppend(j, CommaSpace + [x]);
    assert DropLastTwo(CommaSpace + [x]) == [Comma];
    assert j + CommaSpace + [x] == j + (CommaSpace + [x]);
  }
}
