# Drive catalog site generator — a Dafny model

`gdrive_client.py` builds a static product catalog from a Google Drive folder.
Each subfolder of a parent folder is a product. Its name gives the page's file
name through `slugify`, and its JPEG, PNG and WebP files are the product's
images. Each image's `webViewLink` is rewritten from the Drive viewer form to
the embeddable `/preview` form. Two Jinja2 templates then write
`docs/index.html` and one `docs/products/<slug>.html` per product.

This project models that data path and proves properties of it:

- `wrappers.dfy`: the `Option` and `Result` datatypes.
- `drive.dfy`: the listed records (folders and images) and the two listing
  helpers. The Drive service is an injected oracle: a pair of functions from a
  folder id to either the listed records or an `HttpError`.
- `slug.dfy`: `slugify` as a chain of four functions, with its character-class
  postcondition, its fixed points, idempotence, and how separator runs and
  hyphens between words come out.
- `slug_examples.dfy`: the slugs of a few folder names.
- `view_link.dfy`: `str.replace` as `ReplaceAll`, and the loop that rewrites
  the view links of a listing in place (an `array<Image>`).
- `view_link_examples.dfy`: the `drivesdk` and `sharing` links of one file.
- `products.dfy`: the product record, page paths, and the assembly loop of
  `main`, proved against the function `Catalog`.
- `site.dfy`: the filesystem (a class holding a map from path to content),
  the templates (opaque functions), and `generate_site`, proved against the
  function `SiteFiles`. This includes last-write-wins when two products share
  a page.
- `client.dfy`: the run of `main` after authentication, with the
  properties of the site a run leaves behind.

Python's `\s`, `strip()` and `isspace()` all use the same Unicode whitespace
set; `IsSpace` spells it out. `str.lower` is modelled for the characters that
can affect a slug: `A`–`Z`, KELVIN SIGN (to `k`) and LATIN CAPITAL LETTER I
WITH DOT ABOVE (to `i` plus a combining dot). Every other character is left as
it is. Python may map such a character to another non-ASCII character, but the
filter deletes both alike.

Three facts about the code that the model keeps:

- The view-link rewrite is `str.replace`. It replaces every occurrence of
  `/view?usp=drivesdk` anywhere in the link, not only a trailing one.
  `ViewLink.ReplaceAll` models that. `ViewLink.RewriteDriveSdkLink` shows
  that on a link whose only `?` is in a trailing `/view?usp=drivesdk`, the
  result is the same as replacing that suffix alone.
- With no product folders, `main` returns before `generate_site`
  (gdrive_client.py:112-114). No index page is written and nothing else
  changes (`Client.Run`). `Site.GenerateSite` itself, given an empty list,
  writes only the index page (`Site.SiteFiles`).
- Non-ASCII letters are deleted, not transliterated. `"Café!"` gives `"caf"`,
  so it shares a page with `"Caf"`, not with `"Cafe"`
  (`SlugExamples.SlugifyCafe`).

## Model

| member | source | states |
|---|---|---|
| Drive.ListSubfolders | gdrive_client.py:13-22 | a listing error gives the empty folder list; a successful listing is returned as it is |
| Drive.ListImages | gdrive_client.py:27-41 | a listing error gives the empty image list; a successful listing is returned as it is |
| Slug.IsSpace | gdrive_client.py:70-72 | the characters `str.isspace` accepts, which `strip()` removes and `\s` matches; none of them is in `[a-z0-9-]`, is `_`, or lower-cases to an ASCII letter |
| Slug.LowerChar | gdrive_client.py:70 | KELVIN SIGN lower-cases to `k`, U+0130 to `i` plus U+0307, and a character that does not lower-case to an ASCII letter is kept; no output character lower-cases to an ASCII letter |
| Slug.LowerAscii | gdrive_client.py:70 | on ASCII text, lower-casing keeps the length, maps each of `A`-`Z` to its lower-case letter and keeps every other character |
| Slug.Lower | gdrive_client.py:70 | after lower-casing, no character is one that lower-casing would turn into an ASCII letter |
| Slug.LowerFixes | gdrive_client.py:70 | lower-casing leaves a string without upper-case letters unchanged |
| Slug.LowerAppend | gdrive_client.py:70 | lower-casing distributes over concatenation |
| Slug.Strip | gdrive_client.py:70-76 | the result neither starts nor ends with a stripped character; the text is unchanged exactly when its ends are kept; a text made only of stripped characters becomes empty |
| Slug.LeadingCountRun | gdrive_client.py:70-76 | the leading run that stripping removes holds only characters of the stripped class |
| Slug.TrailingCountRun | gdrive_client.py:70-76 | the trailing run that stripping removes holds only characters of the stripped class |
| Slug.StripSplits | gdrive_client.py:70-76 | the input is the stripped result with a run of stripped characters put back at each end: only the ends are removed and the middle is kept; with the ensures of `Slug.Strip` this fixes the result |
| Slug.CollapseRuns | gdrive_client.py:72 | the result holds no whitespace or underscore and is no longer than the input |
| Slug.CollapseRunsFixes | gdrive_client.py:72 | a text without whitespace or underscores is left unchanged |
| Slug.CollapseRunsSplit | gdrive_client.py:72 | a maximal separator run between two parts becomes exactly one hyphen |
| Slug.KeepSlugChars | gdrive_client.py:74 | every kept character is in `[a-z0-9-]`, and a text over `[a-z0-9-]` is unchanged |
| Slug.KeepSlugCharsAppend | gdrive_client.py:74 | the filter distributes over concatenation |
| Slug.KeepSlugCharsCounts | gdrive_client.py:74 | every occurrence of every character of `[a-z0-9-]` is kept |
| Slug.Slugify | gdrive_client.py:68-77 | the slug holds only `[a-z0-9-]` and is empty or has no hyphen at either end |
| Slug.SlugifyFixesSlugs | gdrive_client.py:68-77 | every slug is returned unchanged |
| Slug.SlugifyFixedPoints | gdrive_client.py:68-77 | `slugify(s) == s` exactly when `s` is a slug |
| Slug.SlugifyIdempotent | gdrive_client.py:68-77 | `slugify(slugify(t)) == slugify(t)` |
| Slug.SlugifyWord | gdrive_client.py:70-76 | a separator-free word with a non-empty, hyphen-free-at-the-ends filtered form slugifies to that form |
| Slug.SlugifyJoin | gdrive_client.py:70-76 | two words joined by any run of whitespace or underscores slugify to their slugs joined by one hyphen |
| Slug.SlugifyHyphenJoin | gdrive_client.py:70-76 | a hyphen with separator runs on both sides becomes three hyphens: hyphens already present are not collapsed |
| SlugExamples.SlugifyRedMug | gdrive_client.py:68-77 | `"Red Mug"` gives `"red-mug"` |
| SlugExamples.SlugifyBlueMug | gdrive_client.py:68-77 | `"Blue_Mug!!"` gives `"blue-mug"` |
| SlugExamples.SlugifyAHyphenB | gdrive_client.py:68-77 | `"a - b"` gives `"a---b"` |
| SlugExamples.SlugifyCafe | gdrive_client.py:73-74 | `"Café!"` gives `"caf"`: non-ASCII letters are deleted |
| ViewLink.ReplaceAll | gdrive_client.py:126 | `str.replace`: a replacement no shorter than the pattern never shortens the text, and one no longer never lengthens it; the lemmas below fix the result completely |
| ViewLink.ReplaceAllLength | gdrive_client.py:126 | the rewritten link is longer or shorter by `\|rep\| - \|pat\|` per rewritten occurrence |
| ViewLink.MatchCountZero | gdrive_client.py:126 | no occurrence is rewritten exactly when the pattern does not occur |
| ViewLink.ReplaceAllAbsent | gdrive_client.py:126 | a link without the pattern is returned unchanged |
| ViewLink.ReplaceAllFirstMatch | gdrive_client.py:126 | at the first occurrence, the prefix is copied, the replacement emitted, and the rest rewritten |
| ViewLink.RewriteChangesIffOccurs | gdrive_client.py:126 | the rewrite changes a link exactly when it contains `/view?usp=drivesdk` |
| ViewLink.NoViewLeft | gdrive_client.py:126 | no rewritten link contains `/view?usp=drivesdk`: every occurrence is replaced and none is created |
| ViewLink.RewriteDriveSdkLink | gdrive_client.py:124-126 | a link ending in `/view?usp=drivesdk`, with no other `?`, ends in `/preview` instead |
| ViewLink.KeepSharingLink | gdrive_client.py:126 | a link ending in `/view?usp=sharing`, with no other `?`, is left as it is |
| ViewLink.RewriteImage | gdrive_client.py:123-126 | only `webViewLink` can change; it stays absent when absent and is rewritten when present; id, name and thumbnail are kept |
| ViewLink.RewriteAll | gdrive_client.py:122-126 | the listing keeps its length and each record is rewritten on its own |
| ViewLink.RewriteViewLinks | gdrive_client.py:122-126 | after the in-place loop the array holds the rewrite of its old contents |
| ViewLinkExamples.DriveSdkLinkRewritten | gdrive_client.py:126 | `https://drive.google.com/file/d/X/view?usp=drivesdk` becomes `https://drive.google.com/file/d/X/preview` |
| ViewLinkExamples.SharingLinkKept | gdrive_client.py:126 | `https://drive.google.com/file/d/X/view?usp=sharing` is unchanged |
| Products.PagePath | gdrive_client.py:133 | a page path is `docs/products/`, then the slug, then `.html` |
| Products.PagePathInjective | gdrive_client.py:133 | two slugs give the same page path exactly when they are equal |
| Products.PagePathNotIndex | gdrive_client.py:54 | no product page path is `docs/index.html` |
| Products.ProductUrl | gdrive_client.py:128-133 | a product's url is the page path of its name's slug, and the middle part is a slug |
| Products.ProductUrlShared | gdrive_client.py:128-133 | two names share a url exactly when they share a slug |
| Products.CatalogProduct | gdrive_client.py:119-134 | the record has the folder's id and name, the rewritten image listing of the folder's id, and the url of the name |
| Products.Catalog | gdrive_client.py:118-134 | one product per folder |
| Products.CatalogAt | gdrive_client.py:118-134 | the product at each position is the record of the folder at that position |
| Products.CatalogUrls | gdrive_client.py:128-133 | no product uses the index path; two products share a url exactly when their folder names share a slug |
| Products.BuildProduct | gdrive_client.py:119-134 | the loop body lists, rewrites in place, and builds exactly the folder's record |
| Products.BuildCatalog | gdrive_client.py:118-134 | the appending loop yields the catalog of the folder list |
| Site.FileSystem.Write | gdrive_client.py:54-55 | writing a file sets its content and changes no other path |
| Site.WriteProducts | gdrive_client.py:59-63 | the product pages add exactly the products' urls to the existing paths |
| Site.SiteFiles | gdrive_client.py:50-63 | the site adds exactly the index path and the products' urls to the existing paths |
| Site.WriteProductsKeeps | gdrive_client.py:60-62 | a path that no product uses keeps its content |
| Site.WriteProductsLastWins | gdrive_client.py:60-62 | a url holds the render of the last product with that url |
| Site.SiteIndexPage | gdrive_client.py:52-56 | the index page holds the render of the whole list when no product uses its path |
| Site.SiteProductPage | gdrive_client.py:58-63 | each product page holds the render of the last product with that url |
| Site.SiteOtherPaths | gdrive_client.py:50-63 | any other path keeps its content and no other path is created |
| Site.GenerateSite | gdrive_client.py:43-66 | after the writes the files are the site of the old files and the product list |
| Client.Run | gdrive_client.py:108-136 | a site is generated exactly when the folder listing is non-empty; otherwise no file changes; otherwise the files are the site of the catalog of the listing |
| Client.RunIndexPage | gdrive_client.py:118-136 | the generated index page holds the render of the whole catalog |
| Client.RunProductPage | gdrive_client.py:118-136 | the page of a folder with no later same-slug folder exists and holds that folder's product |
| Client.RunOtherPaths | gdrive_client.py:118-136 | a path that is neither the index nor any folder's page keeps its content and is not created |
| Client.SameSlugLastWins | gdrive_client.py:128-136 | two folders whose names share a slug share a page, which ends up holding the later folder's product |

## Left out

- Authentication: the `token.json` check, credential loading, validity checks and the `sys.exit` paths (gdrive_client.py:82-97). These are foreign-library I/O.
- Command-line handling (gdrive_client.py:100-106) and every `print`. These are I/O with no logic.
- `build("drive", "v3", ...)`, the query strings (gdrive_client.py:17, 31) and `files().list(...).execute()`. The service is an oracle that returns the listed records or an error. A response without a `files` key, which `results.get('files', [])` turns into an empty list, is an oracle that returns an empty listing. The `pageSize=100` cap is applied by the remote service and is part of what the oracle returns.
- Failures of the listing calls other than `HttpError` (transport errors, timeouts, credential refresh errors) are not modelled: the oracle fails only with `HttpError`. Both helpers catch only `HttpError` (gdrive_client.py:20, 39), and `main` catches only `HttpError` and `FileNotFoundError` (gdrive_client.py:138, 144). Such a failure ends the run before `generate_site`, so no file is written.
- Errors raised by the service outside the two listing helpers: the top-level handlers for `HttpError` and `FileNotFoundError` (gdrive_client.py:138-146). They only choose a message. `Client.Run` assumes the run is not interrupted by them.
- Jinja2: the template environment and loading (gdrive_client.py:47, 53, 59) are not modelled. The two templates are functions supplied by the caller, and their output is not examined.
- `os.makedirs("docs/products")` (gdrive_client.py:50), file encodings and write failures. The filesystem is a map from path to content in which every write succeeds.
- Slug.Lower: full Unicode `str.lower` is not modelled. Characters outside ASCII whose lower-case form has no ASCII letter are kept as they are instead of being mapped to their lower-case form. The later filter deletes both alike, so the slug does not depend on this.
- Slug.IsSpace: Python's whitespace set is listed as of current Unicode data. Characters added to it in later Unicode versions are not covered.
