# GSX web-service wrapper: envelope, response resolver and log naming

This project models the deterministic core of a C# wrapper around Apple's GSX web service and proves properties of it. The model has three parts.

- **Request side** (`GSXNextGen.ParseWrapper` and `buildXML`).
  - A request object is a datatype with an explicit, ordered property list. It replaces runtime reflection.
  - `buildXML` is modelled as imperative methods that append to a `StringBuilder` class. Each method is proved equal to a pure reference serializer (`ToXml`).
  - `ParseWrapper` wraps that text in the SOAP 1.1 envelope of one of eight routing categories.
  - An envelope determines both its category and its request. The prefix it declares reads back as its category's prefix, and given the category the request can be extracted again.
- **Response side** (`GetElement`, `GetValue` and the fault/result handling of `Execute`).
  - A parsed reply is a tree of nodes. Each element's name is in the expanded form `{namespace}local`.
  - `GetElement` searches the descendants in document order. It tries an exact name first and falls back to a name suffix.
  - `GetValue` searches for a case-insensitive exact name.
  - `Execute` resets the static fault table. When the reply has a `Fault`, it fills the table with one entry per descendant using `Hashtable.Add`, which throws on a repeated name. It returns the element named after the result type, or null.
- **Logging side** (`WebserviceHandler.pad` and `logXML`).
  - `pad` is a `while` loop, proved against a closed form.
  - The log file name is proved injective in the direction, the function label (`functionName ?? "unknown"`) and the time fields. A null function name and the name `unknown` share a label.
  - `Call` logs the request and then the response into a list of written files.

Module layout:

| File | Module | Contents |
|---|---|---|
| `wrappers.dfy` | `Wrappers` | `Option` and `Result` |
| `strings.dfy` | `Strings` | `EndsWith`, `Repeat` and concatenation helpers |
| `xml_builder.dfy` | `XmlBuilder` | request objects, the reference serializer, `StringBuilder`, `BuildXml` |
| `envelope.dfy` | `SoapEnvelope` | the category table, `ParseWrapper`, reading an envelope back |
| `response.dfy` | `Response` | nodes, `Descendants`, `GetElement`, `GetValue` |
| `execute.dfy` | `GsxExecute` | the fault table and the class `GsxNextGen` with `Execute` |
| `decimal.dfy` | `Decimal` | invariant-culture decimal strings of integers |
| `webservice_handler.dfy` | `Webservice` | `pad`, the log file name, and the class `WebserviceHandler` |
| `fixtures.dfy` | `Fixtures` | the Authenticate request and its replies, worked through |

The reply document, the clock readings and the transport's answer are parameters. Nothing here reads a clock, a file or the network.

## Model

| member | source | states |
|---|---|---|
| SoapEnvelope.ParseWrapper | GSXNextGen.cs:57-116 | The result is the category's envelope opening tag, the empty header, the opening body tag, the serialized wrapper (nothing for null), and the closing body and envelope tags. |
| SoapEnvelope.Unwrap | GSXNextGen.cs:104-115 | Whatever it extracts from a string, wrapped again in the same category's envelope, gives exactly that string. |
| SoapEnvelope.UnwrapEnvelope | GSXNextGen.cs:104-115 | Unwrapping the envelope of a category gives back exactly the request that was wrapped. |
| SoapEnvelope.NamespaceInjective | GSXNextGen.cs:62-102 | No two categories share a prefix or a path. |
| SoapEnvelope.PrefixWithoutEquals | GSXNextGen.cs:62-102 | No category prefix contains `=`, so the prefix ends where the `=` of its declaration starts. |
| SoapEnvelope.DeclaredPrefixOfEnvelope | GSXNextGen.cs:105 | Reading an envelope from after `xmlns:` up to the first `=` gives the prefix of its category. |
| SoapEnvelope.EnvelopeDeterminesCategoryAndBody | GSXNextGen.cs:62-115 | Two equal envelopes have the same category and the same request. |
| XmlBuilder.SpliceShape | GSXNextGen.cs:196-200 | The colon is inserted exactly when `0 < k < length`. The spliced name is then one longer, has `:` at `k`, and gives back the name without it. Otherwise the name is unchanged. |
| XmlBuilder.ElementDelimited | GSXNextGen.cs:203-209 | A non-null object's fragment starts with `<` and its tag name and ends with `</`, the same tag name and `>`. Without attributes it starts with `<name>`. |
| XmlBuilder.AttrsWithoutEquals | GSXNextGen.cs:205-207 | Attributes whose keys and values hold no `=` are rendered without any `=`. |
| XmlBuilder.PropsXmlAppend | GSXNextGen.cs:212-236 | The properties' output is the concatenation of the output of each property, in declaration order. |
| XmlBuilder.ItemsXmlAppend | GSXNextGen.cs:227-231 | An array's output is the concatenation of its items' fragments, with no wrapping element. |
| XmlBuilder.ItemsXmlEmptyIffAllNull | GSXNextGen.cs:172-173 | An array contributes nothing if and only if every item is null; an empty array contributes nothing. |
| XmlBuilder.Unreserved | GSXNextGen.cs:216-219 | Filtering removes every property named `Attributes`, `ColonCutOffset` or `ClassName` and keeps every other property: a property is in the result if and only if it is in the input and its name is not reserved. |
| XmlBuilder.ReservedPropsIgnored | GSXNextGen.cs:216-219 | Those three properties contribute nothing: dropping them leaves the output unchanged. |
| XmlBuilder.FlatPropsInOrder | GSXNextGen.cs:212-226 | For an object of string and null properties, the body is `<p>v</p>` for each non-null, non-reserved string property, in order, with `v` verbatim, and nothing else. |
| XmlBuilder.AppendRootTag | GSXNextGen.cs:202-209 | Appends `<`, the name, each attribute as a space, the key and the quoted value with no `=`, then `>`. |
| XmlBuilder.AppendProperty | GSXNextGen.cs:213-235 | Appends the text of one non-reserved property: `<p>v</p>` for a string, each item in turn for an array, the nested object otherwise. |
| XmlBuilder.AppendProperties | GSXNextGen.cs:211-236 | Appends exactly the reference output of the property list. |
| XmlBuilder.BuildXml | GSXNextGen.cs:171-240 | Appends exactly the reference serialization of the wrapper to the builder, which is nothing for null. |
| Response.Descendants | GSXNextGen.cs:34 | Only elements are descendants. |
| Response.FirstIndex | GSXNextGen.cs:34-35 | Gives the position of the first node meeting the criterion, or nothing if and only if no node meets it. |
| Response.FirstOrDefault | GSXNextGen.cs:45-48 | Gives the first matching node, or null if and only if none matches. |
| Response.GetElement | GSXNextGen.cs:33-36 | Gives the first descendant named exactly `name`. Only when there is none, it gives the first descendant whose name ends with `name`. It is null if and only if no descendant's name ends with `name`. |
| Response.GetValue | GSXNextGen.cs:44-49 | Gives the text of the first descendant whose name equals `name` ignoring case. It is null if and only if there is none; there is no suffix fallback. |
| Response.FoldEqualsTransitive | GSXNextGen.cs:46 | Equality ignoring case is transitive. |
| Response.GetValueIgnoresCase | GSXNextGen.cs:44-49 | Names that are equal ignoring case look up the same value. |
| GsxExecute.FillFaultDistinct | GSXNextGen.cs:149-155 | With distinct names every `Add` succeeds. The table's keys are exactly the names, and each name maps to its element's text. |
| GsxExecute.FillFaultRepeat | GSXNextGen.cs:149-155 | With a repeated name, the first repeat throws. The table holds the elements before it and the error names that element. |
| GsxExecute.FillFaultStops | GSXNextGen.cs:151-154 | Once an `Add` has thrown, later elements change nothing. |
| GsxExecute.FillFaultSucceedsIffDistinct | GSXNextGen.cs:149-155 | The fault table is filled without error if and only if the names below the fault are distinct. |
| GsxExecute.GsxNextGen.FillFaultTable | GSXNextGen.cs:149-155 | The loop leaves the table as the reference fill of the descendants, and reports the key whose `Add` threw. |
| GsxExecute.GsxNextGen.Execute | GSXNextGen.cs:127-161 | The request is the envelope of the wrapper. With no `Fault`, the table is null. With a `Fault`, the table is its fill and a repeated name is an error. Otherwise the result is the element named after the result type, or null when there is none. |
| Decimal.NatToString | WebserviceHandler.cs:182 | Digits only, one digit exactly below ten, never a leading zero. |
| Decimal.ParseNatToString | WebserviceHandler.cs:182 | A natural number's digit string reads back as the number. |
| Decimal.ParseIntToString | WebserviceHandler.cs:182 | Every integer's invariant-culture string reads back as that integer, so different integers print differently. |
| Webservice.CopiesMinimal | WebserviceHandler.cs:187-191 | The loop adds just enough copies of the padding to reach the length, and one fewer would not reach it. |
| Webservice.PadShape | WebserviceHandler.cs:181-193 | A string already long enough is returned unchanged. Padding in front keeps the digits at the end, and padding behind keeps them at the start. The result is at least the length, and one copy shorter would not be. |
| Webservice.PadOneCharacter | WebserviceHandler.cs:187-193 | With a one-character padding, the length is `max(digits, length)` and every added character is the padding character. |
| Webservice.PadTwoDigits | WebserviceHandler.cs:181-193 | With the defaults, 0 to 99 become exactly two digits that read back as the number. |
| Webservice.PadExamples | WebserviceHandler.cs:181-193 | `pad(7) = "07"`, `pad(0) = "00"`, `pad(45) = "45"` and `pad(-5) = "-5"`. |
| Webservice.WebserviceHandler.Pad | WebserviceHandler.cs:181-194 | The loop returns exactly the closed form: the decimal string, padded in front or behind by the least number of copies that reaches the length. |
| Webservice.RequestAndResponseNamesDiffer | WebserviceHandler.cs:150-152 | A request log name never equals a response log name, whatever the function names and times. |
| Webservice.LogFileNameInjective | WebserviceHandler.cs:150-161 | For in-range time fields, equal log names have the same direction, the same function label and the same seven time fields. |
| Webservice.NullNameIsUnknown | WebserviceHandler.cs:153 | A null function name and the name `unknown` give the same file name, so the name determines only the function label. |
| Webservice.WebserviceHandler.LogXml | WebserviceHandler.cs:149-171 | Adds one file to the log directory, named prefix, direction, `functionName ?? "unknown"`, year, padded month to second and ticks, then `.xml`. Its content is the xml. |
| Webservice.WebserviceHandler.Call | WebserviceHandler.cs:110-140 | With a log directory, the request is logged (as a request) and then the response (as a response). Without one, nothing is logged. The reply is returned. |
| Fixtures.GlobTagName | GSXNextGen.cs:279 | `globAuthenticate` with colon offset 4 is tagged `glob:Authenticate`. |
| Fixtures.AuthenticateRequestXml | GSXNextGen.cs:301-306 | The Authenticate request is `<AuthenticateRequest>`, its four string properties in order, and the closing tag. Its null `Attributes` gives nothing. |
| Fixtures.AuthenticateXml | GSXNextGen.cs:277-299 | The Authenticate body is the request nested inside `<glob:Authenticate>`. |
| Fixtures.FaultFoundBySuffix | GSXNextGen.cs:147 | A namespaced SOAP `Fault` is found only through the suffix fallback. |
| Fixtures.FaultHasNoValue | GSXNextGen.cs:44-49 | `GetValue` does not find a namespaced `Fault`, because it has no suffix fallback. |
| Fixtures.FaultEntriesOfReply | GSXNextGen.cs:149-155 | A fault with `faultcode` and `faultstring` fills the table with those two names and their texts. |
| Fixtures.DuplicateFaultEntry | GSXNextGen.cs:151-154 | A fault holding the same element twice throws on the second `Add`, after the first entry was added. |
| Fixtures.FaultReplyHasNoResult | GSXNextGen.cs:157-161 | A fault reply holds no `AuthenticateResponse`, so the result is null. |
| Fixtures.ResponseFoundBySuffix | GSXNextGen.cs:157-158 | A namespaced `AuthenticateResponse` is found through the suffix fallback. |
| Fixtures.ResponseHasNoFault | GSXNextGen.cs:147-148 | A successful reply holds no `Fault`, so the table stays null. |
| Fixtures.SessionIdIgnoringCase | GSXNextGen.cs:44-49 | `GetValue` finds `userSessionId` when asked for `USERSESSIONID`. |
| Fixtures.ExactBeatsEarlierSuffix | GSXNextGen.cs:33-36 | An exact match wins over a suffix-only match that comes earlier. |
| Fixtures.AuthenticateFaulted | GSXNextGen.cs:277-294 | Authenticate sends the `glob:Authenticate` envelope. On a fault reply the table holds the fault's two entries and the result is null. |
| Fixtures.AuthenticateSucceeded | GSXNextGen.cs:277-294 | On a successful reply the table stays null and the result is the `AuthenticateResponse` element. |

## Left out

- HTTP transport of `WebserviceHandler.Call` (the request, streams, `GetResponse`, recovering the body of a `WebException`, headers): network I/O. The reply document is a parameter.
- Client certificates and `File.Exists`: foreign crypto and filesystem calls.
- `File.WriteAllText` and `Path.Combine`: a written file is a `LogFile(directory, name, content)` record appended to a list.
- `DateTime.Now`: the seven readings are the fields of a `Timestamp` parameter. Each is read separately in the source, so the fields are independent in the model too.
- Configuration lookups (`HttpContext`, `WebConfigurationManager`): environment access.
- `XmlSerializer` deserialization of the found element and `XDocument.Load`: library internals. Execute returns the found element itself, and replies are already-parsed trees.
- Runtime reflection: replaced by the explicit ordered property list on each object.
- Vendor schema classes other than the Authenticate ones: data without logic.
- `Authenticate.Perform`: not a member. Its configuration reads are parameters, and its `Execute` call is worked through in `Fixtures.AuthenticateFaulted` and `Fixtures.AuthenticateSucceeded`.
- Concurrency on the static `FaultEntries`: the field belongs to one `GsxNextGen` object.
- `XmlBuilder.Obj` has no `int` or other non-string scalar properties. In the source such a value is handed to `buildXML`, which emits an element named after the value's runtime type with that type's public properties inside; an `int` gives `<Int32></Int32>`. Only string, array and object values are modelled.
- Response.GetElement: `EndsWith` is compared ordinally. The source's culture-sensitive comparison is not modelled.
- Response.GetElement: the exact comparison `d.Name == name` converts `name` to an `XName`, which throws (`ArgumentException` for the empty string, `XmlException` for a name that is not a valid XML name such as `a b` or `1x`) once the container has a descendant. The model does not raise that error; for such names it goes on to the suffix match. The callers in Execute pass only `Fault` and a type name.
- Response.GetValue: case folding covers ASCII letters only. Invariant-culture folding of other characters is not modelled.
- XmlBuilder.SpliceShape: lengths and the colon offset count Unicode characters. The source's `Length` and `Substring` count UTF-16 code units, so for a class name with a character outside the Basic Multilingual Plane the colon lands elsewhere (the source can split a surrogate pair). The same holds for `XmlBuilder.Splice` and `XmlBuilder.TagName`.
- Webservice.WebserviceHandler.Pad: `number` is an unbounded integer rather than a 32-bit `int`. It requires a non-empty padding whenever padding is needed, because the source's loop never ends otherwise. Lengths count Unicode characters, while the source's `output.Length` counts UTF-16 code units, so a padding with a character outside the Basic Multilingual Plane is repeated a different number of times (the source gives `"𝒜5"` for `pad(5, 3, "𝒜")`, the model `"𝒜𝒜5"`).
- GsxExecute.GsxNextGen.Execute: the fault loop is the separate method `FillFaultTable`. When `Add` throws, the error is a `Failure` result, and the partly filled table stays in the field as it does in the source.
- Text escaping: the source does not escape text or attribute values, and neither does the model.
- Duplicate fault names: the source's `Hashtable.Add` throws on them; it does not overwrite. The model follows the code.
