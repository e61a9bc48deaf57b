# XML attribute serialisation, modelled in Dafny

This project models `src/xml/attribute.rs` of elementtree-rust. An XML attribute is
a qualified name paired with a raw string value. It comes in two flavours: a
borrowed `Attribute` and an owned `OwnedAttribute`. Both have the textual form
`NAME="ESCAPED_VALUE"`. The owned flavour can hand out a borrowed view of itself.

Modules:

- `Wrappers` (wrappers.dfy): the `Option` datatype.
- `XmlEscape` (escape.dfy): the attribute-value escaper `Escape`. It replaces
  `&`, `<`, `>`, `"` and `'` by `&amp;`, `&lt;`, `&gt;`, `&quot;` and `&apos;`, and
  copies every other character through in order. The module also defines
  `Unescape`, its inverse, and the set `WellEscaped` of strings the escaper can
  produce. It proves that `Escape` and `Unescape` are mutually inverse
  bijections between all strings and the well-escaped ones.
- `XmlName` (name.dfy): a minimal qualified name (local name, optional
  namespace, optional prefix) in a borrowed and an owned flavour. Its text is
  `{namespace}prefix:local`, and the braces part and the `prefix:` part appear
  only when present.
- `XmlAttribute` (attribute.dfy): the two attribute datatypes and their
  constructors, `borrow`, and the shared `Render` format. It also has a reader
  `SplitRendered` that recovers the name text and the raw value from a rendered
  attribute. It is used to show that rendering loses nothing of the value.

Dafny datatype equality is structural, so the derived `PartialEq`/`Eq` of both
structs is modelled directly by `==`.

## Model

| member | source | states |
|---|---|---|
| `XmlEscape.Escape` | src/xml/attribute.rs:23 | `escape_str_attribute`, the character-by-character replacement of a value; its contract is carried by `EscapeIsWellEscaped` and `EscapeUnescape` (with `UnescapeEscape`: a bijection onto the well-escaped strings) and by the lemmas below |
| `XmlEscape.EscapeChar` | src/xml/attribute.rs:88-96 | a character that is not one of the five is kept as it is; each of the five becomes a reference of 4 to 6 characters that opens with its only `&` and ends with `;`; no replacement contains `<`, `>`, `"` or `'` |
| `XmlEscape.EscapeSingle` | src/xml/attribute.rs:88-96 | `&`, `<`, `>`, `"`, `'` escape to `&amp;`, `&lt;`, `&gt;`, `&quot;`, `&apos;`, and any other character escapes to itself |
| `XmlEscape.EscapeAppend` | src/xml/attribute.rs:23 | escaping the concatenation of two strings gives the concatenation of their escapes |
| `XmlEscape.EscapeAt` | src/xml/attribute.rs:90 | the replacement of the i-th character lies in the escaped text right after the escape of the characters before it, so order is kept |
| `XmlEscape.EscapeInPlainContext` | src/xml/attribute.rs:95 | text without markup on either side of a part is copied through unchanged around that part's escape |
| `XmlEscape.EscapeIdentity` | src/xml/attribute.rs:95 | a value is unchanged by escaping if and only if it contains none of the five characters |
| `XmlEscape.EscapeHasNoBareMarkup` | src/xml/attribute.rs:23 | an escaped value contains no literal `<`, `>`, `"` or `'` |
| `XmlEscape.EscapeIsWellEscaped` | src/xml/attribute.rs:23 | an escaped value is well escaped: read from the left, each piece is an entity reference or a character needing no escape, so every `&` starts a reference |
| `XmlEscape.UnescapeEscape` | src/xml/attribute.rs:23 | unescaping an escaped value gives back the raw value |
| `XmlEscape.EscapeUnescape` | src/xml/attribute.rs:23 | escaping the unescape of any well-escaped string gives back that string |
| `XmlEscape.EscapeInjective` | src/xml/attribute.rs:23 | two values have the same escape if and only if they are equal |
| `XmlName.Name.Qualified` | src/xml/attribute.rs:89 | `Name::qualified` gives a name with that local name, that namespace and that optional prefix |
| `XmlName.Name.Local` | src/xml/attribute.rs:7 | a name with the given local name and neither namespace nor prefix |
| `XmlName.Name.ToString` | src/xml/attribute.rs:95 | a name's text ends with its local name, starts with `{namespace}` when it has a namespace, and is just the local name when it has neither namespace nor prefix |
| `XmlName.NameText` | src/xml/attribute.rs:95 | the text of each combination of namespace and prefix, e.g. `{urn:namespace}n:attribute` for the test's name |
| `XmlName.OwnedName.ToString` | src/xml/attribute.rs:74 | the text of an owned name, the `self.name` written by the owned `Display`: it ends with the local name, starts with `{namespace}` when there is a namespace, and is the local name alone when there is neither namespace nor prefix |
| `XmlName.OwnedName.Borrow` | src/xml/attribute.rs:53 | the borrowed view of a name has the owner's local name, namespace and prefix |
| `XmlAttribute.Render` | src/xml/attribute.rs:23 | the shared `write!` format of both `Display` impls; its contract is carried by `RenderLayout`, `SplitRender` and `SplitRenderedSound` |
| `XmlAttribute.Attribute.ToString` | src/xml/attribute.rs:21-24 | the borrowed `Display`: the name's text, `="`, the escaped value, `"`; its contract is carried by `RenderLayout` (layout, and the value reads back), `SplitRender` and `SplitRenderedSound` (the reader recovers name text and value exactly), `RenderingDeterminesValue` and `OnlyDelimitingQuotes` |
| `XmlAttribute.OwnedAttribute.ToString` | src/xml/attribute.rs:69-77 | the owned `Display`, the same format over the owned fields; its contract is carried by `BorrowConsistent` (it equals the borrowed view's rendering, so every lemma about `Attribute.ToString` applies) |
| `XmlAttribute.RenderLayout` | src/xml/attribute.rs:21-24 | a rendered attribute is the name's text, then `="`, then a value region without `"` that is well escaped and unescapes to the raw value, then a closing `"` |
| `XmlAttribute.Attribute.New` | src/xml/attribute.rs:31-33 | `Attribute::new` stores the name and the value unchanged |
| `XmlAttribute.OwnedAttribute.New` | src/xml/attribute.rs:61-66 | `OwnedAttribute::new` stores the name and the value unchanged |
| `XmlAttribute.OwnedAttribute.Borrow` | src/xml/attribute.rs:51-56 | the borrowed view has the owner's value and the borrow of the owner's name, whose three parts are the owner's |
| `XmlAttribute.BorrowConsistent` | src/xml/attribute.rs:69-77 | the borrowed view equals an independently built `Attribute::new` of the same parts, and renders exactly as the owned attribute does |
| `XmlAttribute.AttributeEquality` | src/xml/attribute.rs:12 | two attributes are equal if and only if their names and raw values are equal; for equal names, equal rendered forms hold exactly when the attributes are equal |
| `XmlAttribute.OwnedAttributeEquality` | src/xml/attribute.rs:39 | two owned attributes are equal if and only if their names and raw values are equal, and if and only if their borrowed views are equal |
| `XmlAttribute.SplitRender` | src/xml/attribute.rs:23 | reading a rendered attribute gives back exactly the name text and the raw value |
| `XmlAttribute.SplitRenderedSound` | src/xml/attribute.rs:23 | whatever the reader accepts is the rendering of the name text and value it returns |
| `XmlAttribute.RenderingDeterminesValue` | src/xml/attribute.rs:23 | two attributes with the same rendered form have the same raw value, whatever their names |
| `XmlAttribute.OnlyDelimitingQuotes` | src/xml/attribute.rs:23 | when the name's text has no `"`, the only `"` characters of the rendered form are the one opening the value and the closing one; the condition is needed, because the name's text is written unescaped, so a namespace such as `a"b` puts a further `"` into the output |
| `XmlAttribute.MarkupRun` | src/xml/attribute.rs:90 | the test's run `> & " ' <` escapes to `&gt; &amp; &quot; &apos; &lt;` |
| `XmlAttribute.AttributeDisplayExample` | src/xml/attribute.rs:88-96 | the test's name with a value of plain text, the run `> & " ' <` and plain text renders as `{urn:namespace}n:attribute="` + the same plain text around `&gt; &amp; &quot; &apos; &lt;` + `"` |
| `XmlAttribute.AttributeDisplayTest` | src/xml/attribute.rs:86-97 | the test's own attribute, `{urn:namespace}n:attribute` with value `its value with > & " ' < weird symbols`, renders as exactly the expected `{urn:namespace}n:attribute="its value with &gt; &amp; &quot; &apos; &lt; weird symbols"` |
| `XmlAttribute.PlainValueRendering` | src/xml/attribute.rs:23 | an attribute with a local name and a markup-free value (the empty value included) renders as `name="value"` |

## Left out

- The `fmt::Formatter` / `fmt::Result` plumbing of both `Display` impls. Rendering is a pure function returning a string, so no write can fail.
- The derived `Hash`, `Debug`, `Copy` and `Clone`. They are compiler-generated, and a hash has no contract beyond agreeing with equality.
- Rust lifetimes and the `#[cfg(test)]` gating of the constructors and of `borrow`. A borrowed attribute is a plain value that holds the same parts as its owner, so the aliasing and lifetime guarantees are not modelled.
- The generic `Into<String>` conversion in `OwnedAttribute::new`. The argument is taken as an already converted string.
- `src/xml/escape.rs` is not part of this model. The test pins the five replacements and the pass-through of the letters and spaces around them; that every other character passes through unchanged is an assumption of the model. The real `escape_str_attribute` likely also rewrites further characters such as `\n` and `\r`, which the model does not; `EscapeIdentity`, `PlainValueRendering` and the other pass-through facts hold for the model's escaper.
- `src/xml/name.rs` is not part of this model. `Name`/`OwnedName` are reduced to their three parts, their borrow conversion and the `{namespace}prefix:local` text. An owned name's text is defined as that of its borrowed view. Name validity (a non-empty, well-formed local part) is not enforced, so the lemmas hold for every name.
