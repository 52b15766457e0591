# Bootstrap's HTML sanitizer, modelled in Dafny

Bootstrap v4.3.0 passes the HTML of tooltips and popovers through
`sanitizeHtml` (`js/src/tools/sanitizer.js`). The function is an allow-list
filter:

- It parses the markup into a detached document.
- It walks a snapshot of every element below the body, in document order.
- It unlinks each element whose lower-cased name is not a key of the
  whitelist. Unlinking takes the element's whole subtree with it.
- On every other element it removes each attribute that `allowedAttribute`
  refuses. An attribute survives when its lower-cased name is a string entry
  of the wildcard list (`'*'`) or of the element's own list. A URI-bearing
  attribute (`uriAttrs`) must also have a value that matches
  `SAFE_URL_PATTERN` or `DATA_URL_PATTERN`.
- It returns the body's `innerHTML`.

The model has these modules:

- `Text`: ASCII lower-casing. It stands for both `toLowerCase` and the `i`
  flag of the patterns.
- `Policy`: the whitelist entries, `uriAttrs` and `DefaultWhitelist`.
- `UrlPatterns`: the two URL patterns.
  - Each pattern is written as a character scanner.
  - Each scanner is proved equal to a declarative description of the
    pattern's language.
- `AttributeCheck`: `allowedAttribute`.
- `Lists`: the one list operation the DOM updates need, an order-preserving
  filter.
- `Dom`: the parsed document.
  - The document is an arena of nodes. Node 0 is the body, and every parent
    has a smaller index than its children. Nothing more is required of the
    numbering, so the snapshot is in increasing index order, which is
    document order for a parser's numbering.
  - `Document` is a class whose fields are updated in place by `RemoveChild`
    and `RemoveAttribute`.
- `Sanitizer`: the loop, proved against `Sanitized`/`Output`, a specification
  of the state after each prefix of the snapshot. It also holds the
  properties of the output.
- `Scenarios`: the default policy on concrete markup and URLs.

The code strips `aria-*` attributes, although the comment above
`ARIA_ATTRIBUTE_PATTERN` (lines 19-22) promises otherwise. The
wildcard list holds that pattern as a RegExp object, and
`allowedAttributeList.indexOf(attrName)` only finds entries strictly equal
to the name string, so no RegExp entry ever lets an attribute through. The
model follows the code: a whitelist entry is `Exact(name)` or
`Pattern(source)`, and a `Pattern` never matches. Two lemmas state this:
`AttributeCheck.PatternEntriesNeverMatch` and
`Scenarios.AriaAttributeStripped`.

## Model

| member | source | states |
|---|---|---|
| `Policy.UriAttrsLower` | js/src/tools/sanitizer.js:8-17 | All eight URI attribute names are in lower case, so each can match a lower-cased attribute name. |
| `Policy.DefaultKeysLower` | js/src/tools/sanitizer.js:25-57 | Every key of the default whitelist is in lower case, so each can match a lower-cased element name. |
| `Policy.DefaultEntriesLower` | js/src/tools/sanitizer.js:25-57 | Every string entry of the default whitelist is in lower case, so each can match a lower-cased attribute name. |
| `Policy.DefaultPatternOnlyAria` | js/src/tools/sanitizer.js:23-27 | The only non-string entry of the default whitelist is the aria pattern in the wildcard list. |
| `Policy.EntriesOf` | js/src/tools/sanitizer.js:108 | `whiteList[key]`, read as `[]` when falsy, holds exactly the entries listed under the key, and none when the key is missing. |
| `Policy.Effective` | js/src/tools/sanitizer.js:108 | The concatenated list holds exactly the wildcard entries and the element's own, and its length is the sum of theirs. |
| `AttributeCheck.IndexOf` | js/src/tools/sanitizer.js:76-77 | `indexOf` returns -1 exactly when the value is absent. Otherwise it returns the first position holding the value. |
| `AttributeCheck.AllowedAttribute` | js/src/tools/sanitizer.js:73-85 | An attribute is allowed iff `Exact(lower-cased name)` is in the list and, when that name is a URI attribute, its value passes `SAFE_URL_PATTERN` or `DATA_URL_PATTERN`. |
| `AttributeCheck.PatternEntriesNeverMatch` | js/src/tools/sanitizer.js:23-27 | Inserting a RegExp entry anywhere in a list changes no decision, so the aria pattern in the wildcard list has no effect. |
| `AttributeCheck.EffectiveIsUnion` | js/src/tools/sanitizer.js:108 | Checking against `whiteList['*'] ++ whiteList[elName]` (a missing key read as `[]`) allows an attribute iff one of the two lists alone allows it. |
| `AttributeCheck.ValueIgnoredOutsideUriAttrs` | js/src/tools/sanitizer.js:77-81 | For a name outside `uriAttrs`, the decision does not depend on the value. |
| `AttributeCheck.NameCaseIgnored` | js/src/tools/sanitizer.js:74 | The decision is the same for a name and its lower-cased form. |
| `Text.LowerIsLower` | js/src/tools/sanitizer.js:74 | Lower-casing yields a lower-case string, leaves a lower-case string unchanged, and is idempotent. |
| `UrlPatterns.SafeUrlMatchesPattern` | js/src/tools/sanitizer.js:64 | The scanner `SafeUrl` accepts a string iff either (a) its lower-cased form starts with `http:`, `https:`, `mailto:`, `ftp:`, `tel:` or `file:`, or (b) some prefix free of `&:/?#` is followed by `/`, `?`, `#` or by the end of the string. |
| `UrlPatterns.SchemeBeforePathIsRefused` | js/src/tools/sanitizer.js:64 | When `&` or `:` comes before any `/?#`, the value is accepted only through a listed scheme. |
| `UrlPatterns.RelativeReferenceMeaning` | js/src/tools/sanitizer.js:64 | The second alternative of the pattern, as a scanner, is equivalent to its declarative description. |
| `UrlPatterns.DataUrlMatchesPattern` | js/src/tools/sanitizer.js:71 | The scanner `DataUrl` accepts a string iff its lower-cased form is `data:` + one of the 15 listed media types + `;base64,` + one or more of `[a-z0-9+/]` + any number of `=`. |
| `UrlPatterns.DataUrlIgnoresCase` | js/src/tools/sanitizer.js:71 | Because of the `i` flag, a value and its lower-case form are judged alike. |
| `UrlPatterns.PayloadMeaning` | js/src/tools/sanitizer.js:71 | The payload scanner accepts exactly a non-empty base64 run followed only by `=`. |
| `UrlPatterns.MimeAndPayloadMeaning` | js/src/tools/sanitizer.js:71 | The media-type alternation, then the payload, is accepted iff some listed media type fits. |
| `Lists.Filter` | js/src/tools/sanitizer.js:102-114 | Filtering keeps exactly the elements that pass, and never lengthens the list. |
| `Lists.FilterAppend` | js/src/tools/sanitizer.js:110-114 | Filtering distributes over concatenation. |
| `Lists.FilterIdempotent` | js/src/tools/sanitizer.js:110-114 | Filtering twice is filtering once. |
| `Lists.FilterThenFilter` | js/src/tools/sanitizer.js:110-114 | Filtering by two predicates in turn is filtering by their conjunction. |
| `Dom.ElementsBelow` | js/src/tools/sanitizer.js:95 | The snapshot holds exactly the in-body nodes below the bound other than the body, in increasing index order. |
| `Dom.BodyElements` | js/src/tools/sanitizer.js:95 | `querySelectorAll('*')` on the body holds exactly the in-body nodes other than the body, each once, in increasing index order. |
| `Dom.Detach` | js/src/tools/sanitizer.js:102 | `removeChild` clears the child's parent link and drops it from its parent's children. Every other parent link and child list, and all names and attributes, stay as they were. |
| `Dom.WithoutAttribute` | js/src/tools/sanitizer.js:112 | `removeAttribute(name)` leaves the element exactly its attributes of other names. Every other element and every link stay as they were. |
| `Dom.DetachCutsSubtree` | js/src/tools/sanitizer.js:102 | After `removeChild`, a node is in the document iff it was before and the removed node is not among its ancestors. |
| `Dom.FilterKeepsNamesUnique` | js/src/tools/sanitizer.js:112 | Removing attributes keeps attribute names unique per element. |
| `Dom.FilterStep` | js/src/tools/sanitizer.js:110-114 | Removing a rejected attribute by name, after the earlier attributes were filtered, is one more step of filtering the snapshot. |
| `Dom.Document.RemoveChild` | js/src/tools/sanitizer.js:102 | `parentNode.removeChild` unlinks the child and drops it from its parent's children. The document stays well-formed. |
| `Dom.Document.RemoveAttribute` | js/src/tools/sanitizer.js:112 | `removeAttribute` drops the attribute of that name from that element only. |
| `Sanitizer.SanitizedStep` | js/src/tools/sanitizer.js:97-115 | Visiting one more element of the snapshot is one step of the loop body. The visited element's own parent link and attributes are still those of the input. |
| `Sanitizer.SanitizedWellFormed` | js/src/tools/sanitizer.js:97-115 | Every intermediate state of the loop is a well-formed document. |
| `Sanitizer.ExamineAttribute` | js/src/tools/sanitizer.js:110-114 | The `forEach` callback removes the attribute's name from the element exactly when `allowedAttribute` refuses it. Parents and children stay as they are. |
| `Sanitizer.AttributeTableStep` | js/src/tools/sanitizer.js:110-114 | The callback on the next attribute of the snapshot takes the loop invariant from `j` to `j + 1`. |
| `Sanitizer.RemoveRejectedAttributes` | js/src/tools/sanitizer.js:107-114 | After the `forEach`, the element holds exactly the snapshot's attributes that `allowedAttribute` accepts, in their order. Nothing else changes. |
| `Sanitizer.SanitizeTree` | js/src/tools/sanitizer.js:94-115 | The loop leaves a well-formed document equal to `Output` of the input. |
| `Sanitizer.SanitizeHtml` | js/src/tools/sanitizer.js:87-118 | Empty input is returned unchanged. Otherwise the result is the serialisation of `Output` of the parsed input. |
| `Sanitizer.InBodyAfterSanitize` | js/src/tools/sanitizer.js:99-105 | A node stays in the document iff it was in it and every element from it up to the body has a whitelisted name. |
| `Sanitizer.OnlyWhitelistedElementsRemain` | js/src/tools/sanitizer.js:101 | Every element left below the body has a lower-cased name that is a whitelist key. |
| `Sanitizer.OnlyAllowedAttributesRemain` | js/src/tools/sanitizer.js:107-114 | Every attribute left below the body was on that element in the input and passes `allowedAttribute` against the element's list. |
| `Sanitizer.UriValuesRemainSafe` | js/src/tools/sanitizer.js:77-78 | Every URI attribute left below the body has a value in the language of one of the two URL patterns. |
| `Sanitizer.BodyUntouched` | js/src/tools/sanitizer.js:95 | The body is not in the snapshot, so its own attributes are never checked. |
| `Sanitizer.SanitizeIdempotent` | js/src/tools/sanitizer.js:97-115 | Sanitizing the output again changes nothing. |
| `Scenarios.ScriptSchemeRefused` | js/src/tools/sanitizer.js:64-71 | `javascript:alert(1)` matches neither URL pattern. |
| `Scenarios.AmpersandBeforePathRefused` | js/src/tools/sanitizer.js:64 | `a&b` matches neither URL pattern. |
| `Scenarios.SafeExamplesAccepted` | js/src/tools/sanitizer.js:64 | `https://x`, `/p?q` and the empty string are safe URLs. |
| `Scenarios.ListedDataUrlAccepted` | js/src/tools/sanitizer.js:71 | `data:` + any listed media type + `;base64,` + a lower-case payload passes. |
| `Scenarios.PngDataUrlAccepted` | js/src/tools/sanitizer.js:71 | An inline PNG with mixed-case base64 passes. |
| `Scenarios.UnpaddedPayloadAccepted` | js/src/tools/sanitizer.js:71 | A one-character payload passes: length and padding are not checked. |
| `Scenarios.HtmlDataUrlRefused` | js/src/tools/sanitizer.js:71 | A `text/html` data URL is refused. |
| `Scenarios.ScriptHrefStripped` | js/src/tools/sanitizer.js:73-85 | `href="javascript:alert(1)"` is removed from `<a>`. |
| `Scenarios.HttpsHrefKept` | js/src/tools/sanitizer.js:73-85 | An `https:` link stays on `<a>`. |
| `Scenarios.EventHandlerStripped` | js/src/tools/sanitizer.js:73-85 | `onclick` is removed from `<a>`. |
| `Scenarios.ImageDataSourceKept` | js/src/tools/sanitizer.js:73-85 | An image data URL stays as `src` on `<img>`. |
| `Scenarios.AriaAttributeStripped` | js/src/tools/sanitizer.js:23-27 | `aria-hidden` is removed from `<div>`. |
| `Scenarios.DataAttributeStripped` | js/src/tools/sanitizer.js:25-34 | `data-foo` is removed from `<div>`. |
| `Scenarios.UpperCaseNamesFolded` | js/src/tools/sanitizer.js:99-108 | `<DIV CLASS>` is judged as `<div class>` and kept. |
| `Scenarios.ScriptElementRejected` | js/src/tools/sanitizer.js:25-57 | `script` and `SCRIPT` are not whitelisted. |
| `Scenarios.NestedElementRemovedWithSubtree` | js/src/tools/sanitizer.js:97-105 | Under any whitelist that admits `div` and `p` but not `button`, a button and the paragraph inside it leave the document, although `p` is whitelisted. The enclosing division and a sibling paragraph stay. |
| `Scenarios.NestedElementRemovedByDefault` | js/src/tools/sanitizer.js:97-105 | Under the default whitelist, the same document keeps the division and the sibling paragraph. The button and the paragraph inside it leave. |

## Left out

- Parsing (`DOMParser.parseFromString`, lines 92-93) and serialisation (`innerHTML`, line 117) are browser code. `SanitizeHtml` takes them as the parameters `parse` and `serialize`. The parser is assumed to hand over a well-formed tree whose body is node 0.
- Text, comment and other non-element nodes are not in the arena. The sanitizer never inspects them; they stay wherever their parent element stays.
- `Text.Lower` folds ASCII letters only. Non-ASCII case mappings of `toLowerCase` and of the `i` flag are not modelled. Every name and pattern in the policy is ASCII.
- The regular-expression engine is not modelled. Each URL pattern is a hand-written scanner, proved equal to a description of the pattern's language. The aria RegExp is kept only as an opaque `Pattern` entry, because the code never applies it.
- The `g` flag on `SAFE_URL_PATTERN` is not modelled. It does not change the result of `String.prototype.match`, which is only tested for truthiness.
- `Policy.Whitelist` is a map from names to entry lists. Prototype keys of a JavaScript object and non-array values are not modelled.
- `Dom.Document.RemoveAttribute`: removes by exact name. The DOM lower-cases the argument for HTML elements in an HTML document. Parsed attribute names are already lower case there, so this changes nothing.
- Namespaced (SVG, MathML) element and attribute names are not distinguished from HTML ones.
