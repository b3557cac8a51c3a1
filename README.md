# Platform.sh multi-site mapping, modelled in Dafny

`web/sites/sites.platformsh.php` is the multi-site bootstrap of a Drupal
installation hosted on Platform.sh. Inside the Platform.sh runtime it walks
the application's upstream routes. It parses each route URL's host and writes
`$sites[$host] = $subdomain`. The subdomain (the site key, which names the
directory under `sites/`) is the host with every `"www."` removed, cut before
its first dot. Outside the runtime the script returns before touching `$sites`.

The model has three modules:

- `Wrappers` (`wrappers.dfy`): the `Option` datatype.
- `PhpStrings` (`php_strings.dfy`): the PHP primitives the script uses.
  - `ReplaceAll` is `str_replace` with one search string: a left-to-right
    scan that replaces non-overlapping occurrences.
  - `IndexOf` is `strpos` with a one-character needle; `None` stands for
    PHP's `false`.
  - `PositionAsLength` is PHP passing `false` on as the length 0.
  - `Prefix` is `substr($s, 0, $n)`.
- `PlatformshSites` (`platformsh_sites.dfy`): the script itself.
  - `SiteKey` is the key derivation of lines 26-27.
  - `BuildSites` is the whole script: the runtime guard and the `foreach`.
    It is a method with a loop over a `map<string, string>`.
  - `Built` is the loop's specification, written as a fold over the routes.
    `Overridden` is an independent closed form, and `BuiltClosedForm` proves
    the two equal.

The configuration reader and `parse_url` are inputs. The runtime check is a
`bool`. The routes are a sequence of `ParsedHost` values:
- `Failed` stands for `false`;
- `NoHost` stands for `null`;
- `Host(name)` stands for a host string.

Four behaviours of lines 21-28 are easy to misread; the model follows the
code:

- `str_replace('www.', '', $host)` removes every occurrence of `"www."`, not
  only a leading one. For example, `"awww.example.org"` gets the key
  `"aexample"`.
- A stripped host with no dot gets the empty key, not the whole host.
  `strpos` returns `false`, and `substr` reads it as length 0.
- The table is keyed by the original host, including any `"www."`. It is not
  keyed by the stripped host.
- Only a `parse_url` result that is exactly `false` is skipped. A URL without
  a host gives `null`, which passes the `!== FALSE` guard. PHP reads `null`
  as `""`, so such a route writes the entry `"" -> ""`.

## Model

| member | source | states |
|---|---|---|
| `PhpStrings.ReplaceAll` | web/sites/sites.platformsh.php:26 | replacing by the empty string never lengthens the subject |
| `PhpStrings.ReplaceAllCharacters` | web/sites/sites.platformsh.php:26 | every character of the result comes from the subject or from the replacement |
| `PhpStrings.ReplaceAllNoOccurrence` | web/sites/sites.platformsh.php:26 | a subject in which the search string does not occur is returned unchanged |
| `PhpStrings.ReplaceAllShrinks` | web/sites/sites.platformsh.php:26 | if a non-empty search string occurs in the subject, removing it makes the subject strictly shorter |
| `PhpStrings.ReplaceAllFixedIff` | web/sites/sites.platformsh.php:26 | removing a non-empty search string leaves the subject unchanged if and only if the search string does not occur in it |
| `PhpStrings.ReplaceAllFirstOccurrence` | web/sites/sites.platformsh.php:26 | wherever the leftmost occurrence starts, the text before it is copied, the replacement takes its place, and the scan resumes right after it |
| `PhpStrings.IndexOf` | web/sites/sites.platformsh.php:27 | `strpos` gives no position exactly when the character is absent; otherwise it gives the index of the character's first occurrence |
| `PhpStrings.Prefix` | web/sites/sites.platformsh.php:27 | `substr($s, 0, $n)` is a prefix of `$s` whose length is the smaller of `$n` and the length of `$s` |
| `PlatformshSites.StripWww` | web/sites/sites.platformsh.php:26 | stripping `"www."` never lengthens the host |
| `PlatformshSites.SiteKey` | web/sites/sites.platformsh.php:26-27 | the key is a prefix of the stripped host and contains no dot; if the stripped host has a dot, the key is followed by one; otherwise the key is empty |
| `PlatformshSites.SiteKeyCharacterized` | web/sites/sites.platformsh.php:27 | a string is the site key if and only if it is a dot-free prefix of the stripped host that is followed by a dot when the stripped host has one, and is empty when it has none |
| `PlatformshSites.SiteKeyWithoutDot` | web/sites/sites.platformsh.php:27 | a host without a dot gets the empty key, since stripping adds no dot and `strpos` then gives `false` |
| `PlatformshSites.SiteKeyWithoutWww` | web/sites/sites.platformsh.php:26-27 | a host without `"www."` reaches the truncation unchanged; its key is the text before its own first dot |
| `PlatformshSites.StripWwwKeepsLabel` | web/sites/sites.platformsh.php:26 | a dot-free first label that does not end in `"www"` passes through `str_replace` untouched, together with the dot after it |
| `PlatformshSites.SiteKeyOfLabel` | web/sites/sites.platformsh.php:26-27 | the key of `p.rest` is `p` when `p` has no dot and does not end in `"www"` |
| `PlatformshSites.SiteKeyOfWwwLabel` | web/sites/sites.platformsh.php:26-27 | a leading `"www."` does not change that key |
| `PlatformshSites.StripWwwNotAnchored` | web/sites/sites.platformsh.php:26 | `"www."` is removed even when a character precedes it |
| `PlatformshSites.ExampleNotAnchored` | web/sites/sites.platformsh.php:26-27 | `"awww.example.<rest>"` gets the key `"aexample"` |
| `PlatformshSites.ExampleWwwHost` | web/sites/sites.platformsh.php:23-27 | `www.fiscalcommissionni.org` gets the key `fiscalcommissionni` |
| `PlatformshSites.ExampleDevelopmentHost` | web/sites/sites.platformsh.php:23-27 | `hatecrimereviewni.org.uk.<expanded environment>` gets the key `hatecrimereviewni`, whatever the region, project and branch expand to |
| `PlatformshSites.ExampleDefaultRoute` | web/sites/sites.platformsh.php:17-19 | `uregni.gov.uk.<default domain>` gets the key `uregni`, whatever the default domain is |
| `PlatformshSites.BuildSites` | web/sites/sites.platformsh.php:9-30 | outside the runtime the table is returned exactly as it was; inside, the result is the in-order fold `Built` of the loop body over the routes |
| `PlatformshSites.BuiltClosedForm` | web/sites/sites.platformsh.php:20-30 | the fold equals the incoming table overridden at every written host by that host's key |
| `PlatformshSites.BuiltEntries` | web/sites/sites.platformsh.php:20-30 | the result's keys are the old keys plus the hosts of the routes that parsed, and no others; each such host maps to its own key; every other entry is unchanged |
| `PlatformshSites.BuiltOrderIndependent` | web/sites/sites.platformsh.php:20-28 | two route lists with the same members give the same table, whatever their order and repetitions |
| `PlatformshSites.BuiltSkipsFailed` | web/sites/sites.platformsh.php:21-22 | a route that `parse_url` rejects is skipped, and processing continues with the routes after it |
| `PlatformshSites.BuiltKeepsNoHost` | web/sites/sites.platformsh.php:21-28 | a route without a host is not filtered out; it writes `"" -> ""` |
| `PlatformshSites.BuiltTwice` | web/sites/sites.platformsh.php:20-30 | running the loop again over its own result changes nothing |

## Left out

- ReplaceAll: its own `ensures` is only a length bound. What it replaces is
  stated by the lemmas beside it: `ReplaceAllFirstOccurrence` for the
  leftmost occurrence at any index, and `ReplaceAllFixedIff` for a subject
  without any occurrence.
- The Platform.sh configuration reader (`inRuntime`, `getUpstreamRoutes`,
  `applicationName`) is foreign code that reads the environment. Its results
  are the `inRuntime` flag and the route sequence given to `BuildSites`.
- `parse_url`'s URL grammar is not modelled. Its result for each route is
  the `ParsedHost` input.
- PHP turns an array key that spells a decimal integer (such as `"123"`)
  into an integer key. The model keys `$sites` by strings throughout. Both
  schemes store distinct hosts under distinct keys, so the model's
  lookups agree with PHP's.
- PHP 8.1's deprecation notice for passing `null` to `str_replace` is not
  modelled. Only the resulting `""` is.
- PHP strings are byte strings. The model uses characters, which makes no
  difference because the search strings `"www."` and `"."` are ASCII.
- How Drupal later uses `$sites` to choose a site directory is framework
  code outside this file. It is not part of this model.
