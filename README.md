# dyndo: a Dafny model of the update logic

dyndo is a dynamic-DNS updater for DigitalOcean. It learns the machine's public
IP address from an IP-echo service, finds the "A" record of one configured
domain among the records the DNS provider lists, and edits that record when
its address differs. This project models the decision logic in `main.go`:

- `Domains` (domains.dfy) is the domain splitter `newSplitDomain`. It is a
  pure function over Go's `strings.Split` and `strings.Join`, both modelled
  for a one-character separator. Lemmas cover when a name is rejected, the
  two-label and many-label cases, and the split/join round trip.
- `Records` (records.dfy) is `checkRecord` after its listing call. The listing
  is an input `Result`. The scan over the records is a `for` loop method,
  `CheckRecord`, proved equal to the function `Check`. Lemmas characterise
  every outcome without the search and show that only the first matching
  record decides.
- `Updater` (updater.dfy) is one cycle of `update` plus the edit request built
  by `updateRecord`. The replies of the two services are inputs (`Replies`).
  The calls made on the DNS provider are returned as a sequence of `Call`
  events, so the model states when an edit is issued and what it carries.
- `Wrappers` (wrappers.dfy) holds `Option` and `Result`.

`net.ParseIP`, `net.IP.Equal` and `net.IP.String` stay uninterpreted. They
are passed in as the three functions of a `NetIP<Addr>` value, and the model
assumes nothing about them.

Behaviour that follows from the code and is kept as written:

- Go's `strings.Split` always returns at least one piece. So the only names
  rejected are those without a dot, the empty name among them.
- A name of exactly three labels whose first label is empty, such as
  ".example.com", gets an empty subdomain and the root "example.com". The
  record then looked for is the root. This is the one case where the
  subdomain is empty but the root is not the whole name, so the round trip
  holds only as "empty subdomain and root is the name, or sub + "." + root is
  the name". Two or more subdomain labels always join to a string that
  contains a dot, so only exactly three labels can give this.
- The record's address is compared with `Equal`, not as text. The argument
  order is kept: resolved address first.
- `whatsMyIP` passes the response body to `net.ParseIP` untrimmed
  (main.go:158). Resolution is an input here, so no trimming arises.

## Model

| member | source | states |
|---|---|---|
| `Domains.Split` | main.go:129 | `strings.Split` on one separator yields at least one piece, and no piece contains the separator |
| `Domains.JoinSplit` | main.go:129 | joining the pieces of a split with the separator gives back the original string |
| `Domains.SplitJoin` | main.go:138-142 | splitting the join of a non-empty sequence of separator-free pieces (empty pieces allowed) gives back exactly those pieces |
| `Domains.NewSplitDomain` | main.go:128-144 | no result exactly when the name has fewer than two labels |
| `Domains.RejectedIffNoDot` | main.go:129-132 | a name is rejected if and only if it contains no dot |
| `Domains.SplitDomainLabels` | main.go:133-143 | the root splits back into the last two labels of the input; with two labels the subdomain is empty and the root is the input; with more, the subdomain splits back into all earlier labels and sub + "." + root is the input |
| `Domains.SplitDomainRoundTrip` | main.go:133-143 | for every accepted name, the root has exactly two labels, and either the subdomain is empty and the root is the name, or sub + "." + root is the name |
| `Domains.SplitSubdomainExample` | main.go:138-143 | "sub.example.com" gives subdomain "sub" and root "example.com" |
| `Domains.SplitRootExample` | main.go:133-137 | "example.com" gives an empty subdomain and root "example.com" |
| `Domains.LeadingDotExample` | main.go:138-143 | ".example.com" gives an empty subdomain and root "example.com" |
| `Domains.EmptySubdomainNotWholeName` | main.go:133-143 | some accepted name has an empty subdomain and a root that is not the whole name |
| `Domains.SplitRejectedExamples` | main.go:129-132 | "localhost" and "" are rejected |
| `Records.FirstMatch` | main.go:108-109 | the index found holds an "A" record of the name, and no earlier record is one; no index means no record is one |
| `Records.CheckRecord` | main.go:95-126 | the scan's answer equals `Check`: listing error, not found, unparsable record data, out of date with the record, or up to date |
| `Records.CheckOutcomes` | main.go:104-125 | on a successful listing: not found iff no "A" record has the target name; unparsable iff the first match's data does not parse; up to date iff it parses to an address equal to the resolved one; out of date with a record iff that record is the first match and parses to an unequal address |
| `Records.LaterRecordsIgnored` | main.go:108-123 | everything after the first matching record can be replaced without changing the answer |
| `Records.NonMatchingIgnored` | main.go:108-109 | a record that is not an "A" record of the target name, put in front of the list, does not change the answer |
| `Records.TargetNameExamples` | main.go:104-107 | for "sub.example.com" the record name looked for is "sub", not the full name; for "example.com" it is "example.com" |
| `Updater.UpdateRecord` | main.go:77-91 | the edit request is made on the root domain, with the record's ID and the text of the new address as data; its error is passed back |
| `Updater.Update` | main.go:56-75 | at most one edit per cycle. A failed resolution makes no provider call. A check error or an up-to-date record makes only the listing call. An out-of-date record makes the listing call and then one edit with that record's ID and the resolved address. The cycle's outcome reports which of these happened |

## Left out

- `whatsMyIP` (main.go:146-163): the HTTP GET to the IP-echo service and its status and body handling need a transport. The resolved address is an input `Result`.
- The listing call (main.go:97-102) and the edit call (main.go:84-85) go through the godo and oauth2 clients. Their replies are inputs, and their internals are not modelled.
- `tokenSource` (main.go:26-35) is an oauth2 adapter and is not modelled.
- `run` (main.go:37-54): the startup call to the splitter and the endless timer loop. Each tick runs one `Update`, and the loop never ends, so it is left out.
- `main` (main.go:165-181): flag and environment parsing and the `log.Fatal` exits are process plumbing.
- `net.ParseIP`, `net.IP.Equal` and `net.IP.String` are uninterpreted parameters. Address formats are not modelled.
- Log messages are not modelled. The error values keep only the data they print.
