/** The URL check shared by the `/formats` and `/download` routes: an
    anchored match of `^(https?://)?(www\.)?(m\.)?(youtube\.com|youtu\.be)/.+$`
    with Python `re.match`.

    `IsValidYoutubeUrl` is the check written out by hand, taking each optional
    group greedily. `PatternMatches` is an independent reading of the pattern
    with the regex engine's choices left open (each optional group may be
    taken or skipped, `.+` may stop anywhere), and `ValidatorMatchesPattern`
    proves the two agree on every string. */
module Url {
  import opened Wrappers

  /** `s` without the literal `p` in front, if it is there. */
  function DropOptional(s: string, p: string): string
  {
    if p <= s then s[|p|..] else s
  }

  /** What follows one of the two host names, if `s` starts with one. */
  function AfterHost(s: string): Option<string>
  {
    if "youtube.com" <= s then Some(s[|"youtube.com"|..])
    else if "youtu.be" <= s then Some(s[|"youtu.be"|..])
    else None
  }

  /** `/.+$`: a slash, then at least one character that is not a newline,
      all the way to the end, where one final newline is also allowed
      (Python's `$` without MULTILINE). */
  predicate PathAccepted(p: string)
  {
    && |p| >= 2 && p[0] == '/'
    && var t := p[1..];
       || '\n' !in t
       || (|t| >= 2 && t[|t| - 1] == '\n' && '\n' !in t[..|t| - 1])
  }

  predicate AcceptsFromHost(s: string)
  {
    match AfterHost(s)
    case None => false
    case Some(rest) => PathAccepted(rest)
  }

  predicate AcceptsFromMobile(s: string)
  {
    AcceptsFromHost(DropOptional(s, "m."))
  }

  predicate AcceptsFromWww(s: string)
  {
    AcceptsFromMobile(DropOptional(s, "www."))
  }

  /** `is_valid_youtube_url`. */
  predicate IsValidYoutubeUrl(url: string): (ok: bool)
    ensures ok ==> |url| >= 10
  {
    var afterScheme := if "https://" <= url then url[|"https://"|..] else DropOptional(url, "http://");
    AcceptsFromWww(afterScheme)
  }

  // ---- The pattern, read as a regular expression -------------------------

  /** `$` without MULTILINE: the end, or a last newline before the end. */
  ghost predicate AtEnd(t: string)
  {
    t == [] || t == ['\n']
  }

  /** `.+$`: one character other than newline, after which either `$`
      holds or `.+$` matches again (the engine may stop `.+` anywhere). */
  ghost predicate DotPlusEnd(t: string)
    decreases |t|
  {
    |t| > 0 && t[0] != '\n' && (AtEnd(t[1..]) || DotPlusEnd(t[1..]))
  }

  ghost predicate SlashThenRest(t: string)
  {
    |t| > 0 && t[0] == '/' && DotPlusEnd(t[1..])
  }

  /** `(youtube\.com|youtu\.be)/.+$` */
  ghost predicate HostThenRest(t: string)
  {
    || ("youtube.com" <= t && SlashThenRest(t[11..]))
    || ("youtu.be" <= t && SlashThenRest(t[8..]))
  }

  /** `(m\.)?` followed by the host group: the group taken or skipped. */
  ghost predicate OptMobile(t: string)
  {
    HostThenRest(t) || ("m." <= t && HostThenRest(t[2..]))
  }

  /** `(www\.)?` followed by the rest. */
  ghost predicate OptWww(t: string)
  {
    OptMobile(t) || ("www." <= t && OptMobile(t[4..]))
  }

  /** The whole anchored pattern: `(https?://)?` taken as nothing, as
      `http://`, or as `https://`, followed by the rest. */
  ghost predicate PatternMatches(url: string)
  {
    || OptWww(url)
    || ("http://" <= url && OptWww(url[7..]))
    || ("https://" <= url && OptWww(url[8..]))
  }

  // ---- The hand-written check agrees with the pattern --------------------

  /** The two readings of `.+$` agree. */
  lemma {:induction false} DotPlusEndIff(t: string)
    ensures DotPlusEnd(t) <==>
              || (|t| >= 1 && '\n' !in t)
              || (|t| >= 2 && t[|t| - 1] == '\n' && '\n' !in t[..|t| - 1])
  {
    if |t| >= 1 {
      var u := t[1..];
      DotPlusEndIff(u);
      assert t == [t[0]] + u;
      if |u| >= 1 {
        assert t[..|t| - 1] == [t[0]] + u[..|u| - 1];
      }
    }
  }

  lemma PathAcceptedIff(p: string)
    ensures PathAccepted(p) <==> SlashThenRest(p)
  {
    if |p| >= 1 {
      DotPlusEndIff(p[1..]);
    }
  }

  lemma HostIff(s: string)
    ensures AcceptsFromHost(s) <==> HostThenRest(s)
  {
    if "youtube.com" <= s {
      assert !("youtu.be" <= s) by { assert s[5] == 'b'; }
      PathAcceptedIff(s[11..]);
    } else if "youtu.be" <= s {
      PathAcceptedIff(s[8..]);
    }
  }

  lemma HostStartsWithY(t: string)
    ensures HostThenRest(t) ==> |t| > 0 && t[0] == 'y'
  {
    if "youtube.com" <= t { assert t[0] == "youtube.com"[0]; }
    if "youtu.be" <= t { assert t[0] == "youtu.be"[0]; }
  }

  lemma MobileStart(t: string)
    ensures OptMobile(t) ==> |t| > 0 && (t[0] == 'y' || t[0] == 'm')
  {
    HostStartsWithY(t);
    if "m." <= t { assert t[0] == "m."[0]; }
  }

  lemma WwwStart(t: string)
    ensures OptWww(t) ==> |t| > 0 && (t[0] == 'y' || t[0] == 'm' || t[0] == 'w')
  {
    MobileStart(t);
    if "www." <= t { assert t[0] == "www."[0]; }
  }

  lemma MobileIff(s: string)
    ensures AcceptsFromMobile(s) <==> OptMobile(s)
  {
    if "m." <= s {
      HostIff(s[2..]);
      HostStartsWithY(s);
      assert s[0] == "m."[0];
    } else {
      HostIff(s);
    }
  }

  lemma WwwIff(s: string)
    ensures AcceptsFromWww(s) <==> OptWww(s)
  {
    if "www." <= s {
      MobileIff(s[4..]);
      MobileStart(s);
      assert s[0] == "www."[0];
    } else {
      MobileIff(s);
    }
  }

  /** The hand-written check accepts exactly the strings the anchored
      pattern matches. */
  lemma ValidatorMatchesPattern(url: string)
    ensures IsValidYoutubeUrl(url) <==> PatternMatches(url)
  {
    WwwStart(url);
    if "https://" <= url {
      assert !("http://" <= url) by { assert url[4] == 's'; }
      WwwIff(url[8..]);
      assert url[0] == 'h';
    } else if "http://" <= url {
      WwwIff(url[7..]);
      assert url[0] == 'h';
    } else {
      WwwIff(url);
    }
  }

  /** Nothing at all is turned away. */
  lemma RejectsEmpty()
    ensures !IsValidYoutubeUrl("")
  {
  }

  /** A bare host, and a host followed by an empty path, are turned away:
      `.+` needs at least one character after the slash. */
  lemma RejectsMissingPath()
    ensures !IsValidYoutubeUrl("youtube.com")
    ensures !IsValidYoutubeUrl("youtube.com/")
  {
    var bare := "youtube.com";
    assert bare[0] == 'y';
    assert bare[..11] == bare && bare[11..] == [];
    assert AfterHost(bare) == Some([]);
    var slash := bare + "/";
    assert slash[0] == 'y';
    assert slash[..11] == bare && slash[11..] == "/";
    assert AfterHost(slash) == Some("/");
  }

  /** Another host is turned away. */
  lemma RejectsOtherHost()
    ensures !IsValidYoutubeUrl("https://vimeo.com/123")
  {
    var other := "https://vimeo.com/123";
    assert other[..8] == "https://";
    var rest := other[8..];
    assert rest == "vimeo.com/123";
    assert rest[0] == 'v';
  }

  /** With every optional group present, an accepted path is enough. */
  lemma AcceptsFullPrefix(path: string)
    requires PathAccepted(path)
    ensures IsValidYoutubeUrl("https://" + ("www." + ("youtube.com" + path)))
  {
    var b := "youtube.com" + path;
    var a := "www." + b;
    var full := "https://" + a;
    assert b[..11] == "youtube.com" && b[11..] == path;
    assert AcceptsFromHost(b);
    assert b[0] == 'y';
    assert AcceptsFromMobile(b);
    assert a[..4] == "www." && a[4..] == b;
    assert AcceptsFromWww(a);
    assert full[..8] == "https://" && full[8..] == a;
  }

  /** A short link passes with any accepted path. */
  lemma AcceptsShortLink(path: string)
    requires PathAccepted(path)
    ensures IsValidYoutubeUrl("youtu.be" + path)
  {
    var short := "youtu.be" + path;
    assert short[..8] == "youtu.be" && short[8..] == path;
    assert short[5] == '.';
    assert AcceptsFromHost(short);
    assert short[0] == 'y';
    assert AcceptsFromMobile(short);
  }

  /** A path of one or more non-newline characters is accepted, with or
      without one final newline, which `$` lets through. */
  lemma PathAllowsFinalNewline(id: string)
    requires |id| > 0 && '\n' !in id
    ensures PathAccepted("/" + id)
    ensures PathAccepted("/" + id + "\n")
  {
    var p := "/" + id;
    assert p[1..] == id;
    var q := p + "\n";
    assert q[1..] == id + "\n";
    assert q[1..][..|id|] == id;
  }
}
