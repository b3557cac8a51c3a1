/** The multi-site bootstrap for Platform.sh: every upstream route of the
    running application contributes an entry `host -> site key` to the
    `$sites` table, where the site key is the host with every "www." removed,
    cut before its first dot. The configuration reader and `parse_url` are
    outside the model: the runtime flag and the parsed hosts are inputs. */
module PlatformshSites {
  import opened Wrappers
  import opened PhpStrings

  /** The result of `parse_url($route['url'], PHP_URL_HOST)`: `false` for a
      URL PHP cannot parse, `null` for a URL without a host, or the host. */
  datatype ParsedHost = Failed | NoHost | Host(name: string)

  /** The search string removed from every host. */
  const Www: string := "www."

  /** The host as a PHP string: a `null` host is read as the empty string,
      both by `str_replace` and as an array key. */
  function HostString(p: ParsedHost): string
    requires !p.Failed?
  {
    match p
    case NoHost => ""
    case Host(name) => name
  }

  /** `$newhost = str_replace('www.', '', $host)`. */
  function StripWww(host: string): (r: string)
    ensures |r| <= |host|
  {
    ReplaceAll(host, Www, "")
  }

  /** `substr($newhost, 0, strpos($newhost, '.'))`: the text of the stripped
      host before its first dot, or the empty string when it has no dot. */
  function SiteKey(host: string): (r: string)
    ensures r <= StripWww(host)
    ensures '.' !in r
    ensures '.' in StripWww(host) ==> |r| < |StripWww(host)| && StripWww(host)[|r|] == '.'
    ensures '.' !in StripWww(host) ==> r == ""
  {
    var newhost := StripWww(host);
    Prefix(newhost, PositionAsLength(IndexOf(newhost, '.')))
  }

  /** One pass of the loop body on the table `m`. */
  function Step(m: map<string, string>, p: ParsedHost): map<string, string>
  {
    if p.Failed? then m else m[HostString(p) := SiteKey(HostString(p))]
  }

  /** The table after the loop has processed `routes`, in order, starting
      from `sites`. */
  function Built(sites: map<string, string>, routes: seq<ParsedHost>): map<string, string>
    decreases |routes|
  {
    if |routes| == 0 then sites
    else Step(Built(sites, routes[..|routes| - 1]), routes[|routes| - 1])
  }

  /** The hosts the loop writes: those of the routes not rejected by
      `parse_url`. */
  function RouteHosts(routes: seq<ParsedHost>): set<string>
  {
    set p | p in routes && !p.Failed? :: HostString(p)
  }

  /** The whole script applied to the `$sites` table it finds: nothing
      happens outside the Platform.sh runtime; inside it, each route whose
      host parses writes `$sites[$host]`. */
  method BuildSites(sites: map<string, string>, inRuntime: bool, routes: seq<ParsedHost>)
    returns (result: map<string, string>)
    ensures !inRuntime ==> result == sites
    ensures inRuntime ==> result == Built(sites, routes)
  {
    result := sites;
    if !inRuntime {
      return;
    }
    for i := 0 to |routes|
      invariant result == Built(sites, routes[..i])
    {
      assert routes[..i + 1][..i] == routes[..i];
      var parsed := routes[i];
      if parsed != Failed {
        var host := HostString(parsed);
        var newhost := StripWww(host);
        var subdomain := Prefix(newhost, PositionAsLength(IndexOf(newhost, '.')));
        result := result[host := subdomain];
      }
    }
    assert routes[..|routes|] == routes;
  }

  // ---------------------------------------------------------------------
  // The site key

  /** The site key is the one string that is a prefix of the stripped host,
      holds no dot, and is followed by a dot when the stripped host has one;
      when the stripped host has no dot it is empty. */
  lemma SiteKeyCharacterized(host: string, k: string)
    ensures k == SiteKey(host) <==>
      && k <= StripWww(host)
      && '.' !in k
      && ('.' in StripWww(host) ==> |k| < |StripWww(host)| && StripWww(host)[|k|] == '.')
      && ('.' !in StripWww(host) ==> k == "")
  {
    var s, r := StripWww(host), SiteKey(host);
    if && k <= s && '.' !in k
       && ('.' in s ==> |k| < |s| && s[|k|] == '.')
       && ('.' !in s ==> k == "")
    {
      if '.' in s {
        assert |k| == |r|;
        assert k == s[..|k|] == s[..|r|] == r;
      }
    }
  }

  /** A host without any dot gets the empty site key. */
  lemma SiteKeyWithoutDot(host: string)
    requires '.' !in host
    ensures SiteKey(host) == ""
  {
    if '.' in StripWww(host) {
      ReplaceAllCharacters(host, Www, "", '.');
    }
  }

  /** A host with no "www." in it reaches the truncation unchanged: its key
      is the text before its own first dot. */
  lemma SiteKeyWithoutWww(host: string)
    requires !Occurs(host, Www)
    ensures StripWww(host) == host
    ensures SiteKey(host) <= host && '.' !in SiteKey(host)
    ensures '.' in host ==> host[|SiteKey(host)|] == '.'
  {
    ReplaceAllNoOccurrence(host, Www, "");
  }

  /** The label `p` ends with "www". */
  predicate EndsWithWww(p: string)
  {
    |p| >= 3 && p[|p| - 3..] == "www"
  }

  /** A host starting with such a label does not start with "www.". */
  lemma LabelIsNotWww(p: string, rest: string)
    requires '.' !in p && !EndsWithWww(p)
    requires |p + "." + rest| >= |Www|
    ensures (p + "." + rest)[..|Www|] != Www
  {
    var s := p + "." + rest;
    var w := s[..|Www|];
    assert Www[0] == Www[1] == Www[2] == 'w' && Www[3] == '.';
    if |p| >= 4 {
      assert w[3] == p[3] != '.';
    } else if |p| == 3 {
      assert w[..3] == p == p[|p| - 3..] != "www";
      assert Www[..3] == "www";
    } else {
      assert w[|p|] == '.' != Www[|p|];
    }
  }

  /** A first label without a dot that does not end in "www" passes through
      `str_replace` untouched, dot included, whatever follows it. */
  lemma {:induction false} StripWwwKeepsLabel(p: string, rest: string)
    requires '.' !in p && !EndsWithWww(p)
    ensures StripWww(p + "." + rest) == p + "." + StripWww(rest)
    decreases |p|
  {
    var s := p + "." + rest;
    if |s| < |Www| {
      assert StripWww(s) == s && StripWww(rest) == rest;
    } else {
      LabelIsNotWww(p, rest);
      ReplaceAllSkips(s, Www, "");
      if |p| == 0 {
        assert s[1..] == rest;
      } else {
        var p' := p[1..];
        assert !EndsWithWww(p') by {
          if |p'| >= 3 {
            assert p'[|p'| - 3..] == p[|p| - 3..];
          }
        }
        assert s[1..] == p' + "." + rest;
        StripWwwKeepsLabel(p', rest);
        assert p + "." + StripWww(rest) == [p[0]] + (p' + "." + StripWww(rest));
      }
    }
  }

  /** The key of a host whose first label `p` holds no dot and does not end
      in "www" is that label. */
  lemma SiteKeyOfLabel(p: string, rest: string)
    requires '.' !in p && !EndsWithWww(p)
    ensures SiteKey(p + "." + rest) == p
  {
    var host := p + "." + rest;
    StripWwwKeepsLabel(p, rest);
    var s := StripWww(host);
    assert p + "." <= s;
    FirstLabel(p, s, SiteKey(host));
  }

  /** A leading "www." does not change the key. */
  lemma SiteKeyOfWwwLabel(p: string, rest: string)
    requires '.' !in p && !EndsWithWww(p)
    ensures SiteKey(Www + p + "." + rest) == p
  {
    var host := p + "." + rest;
    ReplaceAllLeading(Www, host, "");
    assert Www + p + "." + rest == Www + host;
    assert StripWww(Www + host) == StripWww(host);
    SiteKeyOfLabel(p, rest);
  }

  /** A prefix of `s` without a dot that is followed by a dot in `s` is the
      dot-free label `p` that `s` starts with. */
  lemma FirstLabel(p: string, s: string, k: string)
    requires '.' !in p && p + "." <= s
    requires k <= s && '.' !in k && |k| < |s| && s[|k|] == '.'
    ensures k == p
  {
    assert s[|p|] == '.';
    if |k| < |p| {
      assert false;  // s[|k|] would be a dot inside p
    } else if |p| < |k| {
      assert false;  // k[|p|] would be the dot after p
    }
    assert k == s[..|k|] == s[..|p|] == p;
  }

  /** "www." is removed wherever it occurs, not only at the start: one
      character before it does not protect it. */
  lemma StripWwwNotAnchored(c: char, t: string)
    ensures StripWww([c] + Www + t) == [c] + StripWww(t)
  {
    var s := [c] + Www + t;
    assert s[..|Www|] != Www by {
      assert s[..|Www|][3] == 'w';
    }
    assert s[1..] == Www + t;
    ReplaceAllLeading(Www, t, "");
  }

  /** So a host such as "awww.example.org" gets the key "aexample", not
      "awww". */
  lemma ExampleNotAnchored(rest: string)
    ensures SiteKey("awww.example." + rest) == "aexample"
  {
    var host, first := "awww.example." + rest, "example";
    assert !EndsWithWww(first) by {
      assert first[|first| - 3..] == "ple";
    }
    assert host == ['a'] + Www + (first + "." + rest);
    StripWwwNotAnchored('a', first + "." + rest);
    StripWwwKeepsLabel(first, rest);
    assert StripWww(host) == "aexample" + "." + StripWww(rest);
    FirstLabel("aexample", StripWww(host), SiteKey(host));
  }

  /** The first host form named in the comments of the script: a leading
      "www." and a production domain. */
  lemma ExampleWwwHost(host: string)
    requires host == "www.fiscalcommissionni.org"
    ensures SiteKey(host) == "fiscalcommissionni"
  {
    var first := "fiscalcommissionni";
    assert !EndsWithWww(first) by {
      assert first[|first| - 3..] == "nni";
    }
    assert host == Www + first + "." + "org";
    SiteKeyOfWwwLabel(first, "org");
  }

  /** The second host form named in the comments of the script: a
      development environment's expanded route,
      "hatecrimereviewni.org.uk.master-7rqtwti-6tlkpwbr6tndk.uk-1.platformsh.site",
      whose first label contains "w" but not "www.". Whatever the region,
      project id and branch expand to, the key is the first label. */
  lemma ExampleDevelopmentHost(environment: string)
    ensures SiteKey("hatecrimereviewni.org.uk." + environment) == "hatecrimereviewni"
  {
    var first, rest := "hatecrimereviewni", "org.uk." + environment;
    assert !EndsWithWww(first) by {
      assert first[|first| - 3..] == "wni";
    }
    assert "hatecrimereviewni.org.uk." + environment == first + "." + rest;
    SiteKeyOfLabel(first, rest);
  }

  /** The route "https://uregni.gov.uk.{default}/" corresponds to the site
      directory "uregni", whatever the default domain expands to. */
  lemma ExampleDefaultRoute(default: string)
    ensures SiteKey("uregni.gov.uk." + default) == "uregni"
  {
    var first, rest := "uregni", "gov.uk." + default;
    assert !EndsWithWww(first) by {
      assert first[|first| - 3..] == "gni";
    }
    assert "uregni.gov.uk." + default == first + "." + rest;
    SiteKeyOfLabel(first, rest);
  }

  // ---------------------------------------------------------------------
  // The table

  /** `sites` with every host of `hosts` set to its own key: the table the
      loop is meant to leave, stated without the loop. */
  function Overridden(sites: map<string, string>, hosts: set<string>): map<string, string>
  {
    sites + map h | h in hosts :: SiteKey(h)
  }

  /** The hosts written by `routes` followed by one more route. */
  lemma RouteHostsSnoc(init: seq<ParsedHost>, last: ParsedHost)
    ensures RouteHosts(init + [last])
      == if last.Failed? then RouteHosts(init) else RouteHosts(init) + {HostString(last)}
  {
    var routes := init + [last];
    forall p | p in routes ensures p in init || p == last { }
    forall p | p in init ensures p in routes { }
    assert last in routes;
  }

  /** Writing one more host's key into the closed form. */
  lemma OverriddenInsert(sites: map<string, string>, hosts: set<string>, h: string)
    ensures Overridden(sites, hosts + {h}) == Overridden(sites, hosts)[h := SiteKey(h)]
  {
  }

  /** The loop's outcome in closed form: the table it started from,
      overridden at every host it writes by that host's key. */
  lemma {:induction false} BuiltClosedForm(sites: map<string, string>, routes: seq<ParsedHost>)
    ensures Built(sites, routes) == Overridden(sites, RouteHosts(routes))
    decreases |routes|
  {
    if |routes| == 0 {
      assert RouteHosts(routes) == {};
    } else {
      var init, last := routes[..|routes| - 1], routes[|routes| - 1];
      BuiltClosedForm(sites, init);
      assert routes == init + [last];
      RouteHostsSnoc(init, last);
      if !last.Failed? {
        OverriddenInsert(sites, RouteHosts(init), HostString(last));
      }
    }
  }

  /** The table afterwards holds the keys it held before and the hosts of
      the routes that parsed, and nothing else; each such host maps to its
      own key and every other entry is left as it was. */
  lemma BuiltEntries(sites: map<string, string>, routes: seq<ParsedHost>)
    ensures Built(sites, routes).Keys == sites.Keys + RouteHosts(routes)
    ensures forall h :: h in RouteHosts(routes) ==> Built(sites, routes)[h] == SiteKey(h)
    ensures forall h :: h in sites && h !in RouteHosts(routes) ==> Built(sites, routes)[h] == sites[h]
  {
    BuiltClosedForm(sites, routes);
  }

  /** The table depends only on which routes occur, not on their order or
      on how often each is repeated. */
  lemma BuiltOrderIndependent(sites: map<string, string>, a: seq<ParsedHost>, b: seq<ParsedHost>)
    requires forall p :: p in a <==> p in b
    ensures Built(sites, a) == Built(sites, b)
  {
    BuiltClosedForm(sites, a);
    BuiltClosedForm(sites, b);
    assert RouteHosts(a) == RouteHosts(b);
  }

  /** A route `parse_url` rejects is skipped and the loop goes on with the
      routes after it. */
  lemma BuiltSkipsFailed(sites: map<string, string>, a: seq<ParsedHost>, b: seq<ParsedHost>)
    ensures Built(sites, a + [Failed] + b) == Built(sites, a + b)
  {
    BuiltClosedForm(sites, a + [Failed] + b);
    BuiltClosedForm(sites, a + b);
    assert RouteHosts(a + [Failed] + b) == RouteHosts(a + b);
  }

  /** A route without a host passes the `!== FALSE` guard and writes the
      entry `"" -> ""`. */
  lemma BuiltKeepsNoHost(sites: map<string, string>, routes: seq<ParsedHost>)
    requires NoHost in routes
    ensures "" in Built(sites, routes) && Built(sites, routes)[""] == ""
  {
    BuiltClosedForm(sites, routes);
    assert "" in RouteHosts(routes);
  }

  /** Running the script a second time over the table it produced changes
      nothing. */
  lemma BuiltTwice(sites: map<string, string>, routes: seq<ParsedHost>)
    ensures Built(Built(sites, routes), routes) == Built(sites, routes)
  {
    BuiltClosedForm(sites, routes);
    BuiltClosedForm(Built(sites, routes), routes);
  }
}
