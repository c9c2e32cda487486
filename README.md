# Algae biofuel advisor: client logic in Dafny

The algae biofuel advisor is a single-page web client. A grower enters the culture's pH,
temperature, volume and harvest frequency, and may add a photo. The client turns these
parameters into a prompt for the Gemini `generateContent` API. It then splits the markdown
answer into recommendation sections. This project models the three pieces of logic that do
that work and proves properties about them:

- **The response presenter** (`GeminiResponse`, in `gemini_response.dfy`). It models
  `splitSections`, and it is built in three layers:
  - The heading test `^#+\s*(.+)$` is encoded exactly. This includes the backtracking that
    decides where the capture starts.
  - A reference definition says where each line goes (`Classify`, `LastMatch`, `Attributed`,
    `BodyOf`, `SplitWith`).
  - The walk itself is written as loops over the lines and over the titles. Those loops are
    proved to compute the reference definition.

  Lemmas then state the fallback to raw text, the fixed title order, the absence of repeated
  titles, the non-blank bodies, and the rule that the image section appears only with an
  image. The card itself (`Render`) shows nothing for an empty answer and the raw text when
  no heading matched. Otherwise it shows the sections. The image notice appears exactly when
  an image was sent.
- **The parameter form** (`AlgaeBiofuelForm`, in `algae_form.dfy`). `FormState` is a class
  with three fields: the form data, the error map and the image preview. Its handlers are
  methods that state exactly what they change. Validation fills a fresh error map step by
  step, and it is proved equal to a declarative definition: one entry per failed rule.
- **The request builder and response reader** (`Gemini`, in `gemini.dfy`). It covers:
  - the prompt template and the request body with its optional `inlineData` part;
  - the `split(',')[1]` extraction of the base64 payload from a data URL;
  - the classification of the HTTP result into the reply text, an `API error: <status> -
    <body>` failure, or an `Unexpected API response format` failure.

`Text` (`text.dfy`) gives the JavaScript string operations these rely on: `trim` over the
ECMAScript white-space set, `toLowerCase`, `includes`, `split`, and decimal printing of a
status code. `Wrappers` (`wrappers.dfy`) gives `Option` and `Result`.

Where the written description of the system and the code disagree, the model follows the code:

- The first title is "Algae Strain Recommendations", not "Strain Recommendations".
- A heading that matches no title is appended to the current body like any other line.
  Blank lines are never appended.
- Only empty number text becomes 0. Any other text goes through `parseFloat`, which is a
  parameter here.
- The harvest frequency is checked only for being non-empty. It is not checked against the
  three offered values.
- An ok reply whose `candidates[0].content.parts` is non-empty but whose first part has no
  `text` is not an unexpected format. The code then returns `undefined`, which the model gives
  as `Success(None)`. Only a missing or empty path fails with the unexpected-format error.
- The image data sent is `split(',')[1]` of the data URL. It runs from the first comma to the
  next comma, or to the end of the string when there is none. It is not everything after the
  first comma.

## Model

| member | source | states |
|---|---|---|
| `GeminiResponse.Titles` | src/components/GeminiResponse.tsx:21-31 | There are four titles, or five with an image. "Image Analysis" is among them exactly when `hasImage` holds. No title repeats. |
| `GeminiResponse.HeadingTextIsGreedyMatch` | src/components/GeminiResponse.tsx:40 | A line has no heading text exactly when it cannot be split into `#+\s*` followed by `.+`. Otherwise the heading text is the suffix after the largest such split point, which is the capture a backtracking matcher returns. |
| `GeminiResponse.CaptureStartIsLargest` | src/components/GeminiResponse.tsx:40 | Every split point of a heading line lies at or before the capture start, and the text from the capture start matches `.+`. |
| `GeminiResponse.FirstMatch` | src/components/GeminiResponse.tsx:44-57 | The result is the first title, in list order, that the heading matches. No earlier title matches. The result is None exactly when no title matches. |
| `GeminiResponse.MatchHeading` | src/components/GeminiResponse.tsx:44-57 | The loop over the sections stops at the first title the heading matches and tries no later title. It reports no match when none of the titles matches. |
| `GeminiResponse.Classify` | src/components/GeminiResponse.tsx:40-57 | The section a matching heading selects is a valid index into the title list. |
| `GeminiResponse.BlankHeadingSelectsFirstTitle` | src/components/GeminiResponse.tsx:40-46 | A heading whose captured text is blank, such as `"# "`, selects the first title, because every title contains the empty text. |
| `GeminiResponse.LastMatchNoneIff` | src/components/GeminiResponse.tsx:34-36 | No section is current exactly when no line so far was a matching heading. |
| `GeminiResponse.LastMatchSomeIff` | src/components/GeminiResponse.tsx:53-54 | Section `i` is current exactly when some line selected `i` and no later line was a matching heading. |
| `GeminiResponse.AttributedToNearestHeading` | src/components/GeminiResponse.tsx:61-63 | A line goes to section `i` exactly when three things hold: it is not a matching heading, it is not blank, and the nearest matching heading above it selected `i`. |
| `GeminiResponse.LinesBeforeFirstHeadingDropped` | src/components/GeminiResponse.tsx:34-63 | A line that comes before every matching heading belongs to no section. |
| `GeminiResponse.BodyBlankIff` | src/components/GeminiResponse.tsx:61-73 | A section's body is blank exactly when no line is attributed to that section. |
| `GeminiResponse.NonEmptySections` | src/components/GeminiResponse.tsx:73 | The filter never adds sections. Every section it keeps has content that is non-empty after trimming. |
| `GeminiResponse.NonEmptySectionsMembers` | src/components/GeminiResponse.tsx:73 | The filter keeps exactly the sections whose content is non-blank. |
| `GeminiResponse.NonEmptySectionsKeepOrder` | src/components/GeminiResponse.tsx:73 | The filter keeps the sections in title order. |
| `GeminiResponse.FallbackIffNoMatchingHeading` | src/components/GeminiResponse.tsx:69-71 | The split returns null exactly when no line of the response is a heading that matches some title. |
| `GeminiResponse.SectionsFollowTitleOrder` | src/components/GeminiResponse.tsx:21-73 | When the split returns sections, they have these properties: every title is an expected title, the titles appear in the fixed order whatever order the headings had, no title repeats, and every body is non-blank. |
| `GeminiResponse.ImageSectionOnlyWithImage` | src/components/GeminiResponse.tsx:29-31 | "Image Analysis" is among the returned titles only when an image was sent. The returned sections follow the fixed order. |
| `GeminiResponse.SectionPresentIffAttributed` | src/components/GeminiResponse.tsx:61-73 | After the filter, section `i` is present exactly when some line is attributed to it. When present, its content is those lines in source order, each followed by `"\n"`. |
| `GeminiResponse.SectionPresentIff` | src/components/GeminiResponse.tsx:33-73 | The same property, stated for the split of a whole response. |
| `GeminiResponse.ProcessLine` | src/components/GeminiResponse.tsx:38-67 | A line processed by the `map` callback has one of three effects. A matching heading makes its title current, sets `sectionsFound` and adds nothing. A non-blank line while a section is current is appended with `"\n"` to that section. Any other line changes nothing. |
| `GeminiResponse.WalkStep` | src/components/GeminiResponse.tsx:38-67 | After each processed line, every body holds exactly the lines attributed to it so far. The current section is the one the last matching heading selected. |
| `GeminiResponse.SplitAlong` | src/components/GeminiResponse.tsx:33-73 | The walk over the lines returns exactly the reference split. |
| `GeminiResponse.SplitSections` | src/components/GeminiResponse.tsx:19-74 | `splitSections` returns exactly the reference split for its fixed title list. The image title is included only with an image. |
| `GeminiResponse.Render` | src/components/GeminiResponse.tsx:16-124 | An empty response renders nothing. A non-empty response renders one of two bodies. It is the raw text exactly when the split returned null. Otherwise it is the returned sections. The image notice is shown exactly when `hasImage` holds. |
| `Text.Trim` | src/components/GeminiResponse.tsx:42 | The trimmed text has no white space at either end and is never longer than the input. It is empty exactly when the input is all white space. |
| `Text.TrimDropsSpaces` | src/components/GeminiResponse.tsx:42 | The trimmed text is a segment `s[a..b]` of the input. Everything before `a` and everything after `b` is white space. |
| `Text.TrimStartDropsSpaces` | src/components/GeminiResponse.tsx:42 | `trimStart` removes exactly a leading run of white space and keeps the rest unchanged. |
| `Text.TrimEndDropsSpaces` | src/components/GeminiResponse.tsx:42 | `trimEnd` removes exactly a trailing run of white space and keeps the rest unchanged. |
| `Text.ToLower` | src/components/GeminiResponse.tsx:45 | The lower-cased text has the input's length. Each character is the lower-case form of the character at the same position. |
| `Text.ContainsIffOccurs` | src/components/GeminiResponse.tsx:46-52 | `includes` holds exactly when the searched text occurs at some position. |
| `Text.Split` | src/components/GeminiResponse.tsx:35 | Splitting gives at least one field, and no field contains the separator. There is a single field exactly when the separator does not occur. |
| `Text.JoinSplit` | src/components/GeminiResponse.tsx:35 | Joining the lines again with the separator gives back the original text. |
| `Text.SplitJoin` | src/lib/gemini.ts:53 | Splitting fields that are joined by the separator gives back those fields, provided none of them contains the separator. |
| `Text.SplitAtFirst` | src/lib/gemini.ts:53 | A text that contains the separator splits into two parts: the text before its first occurrence, then the fields of the text after it. |
| `Text.NatToString` | src/lib/gemini.ts:73 | A printed status consists of digits only, at least one. It starts with `0` only for the value 0. |
| `Text.DecimalValueOfNatToString` | src/lib/gemini.ts:73 | The printed status reads back as the same number. |
| `Gemini.PromptEmbedsParameters` | src/lib/gemini.ts:24 | The prompt starts with the expert lead text. It embeds pH, temperature, volume and harvest frequency in that order, each right after its own lead text, and the task list comes after them. |
| `Gemini.PromptImageTaskIff` | src/lib/gemini.ts:29 | The prompt ends with item e), the request to analyse the image, exactly when an image is attached. Without an image it ends with the task list. |
| `Gemini.PromptWithImage` | src/lib/gemini.ts:24-29 | Attaching an image only appends item e). The rest of the prompt is unchanged. |
| `Gemini.InlinePayloadOfDataUrl` | src/lib/gemini.ts:53 | For a data URL of the form `<header>,<payload>` with no other comma, the extracted data is `<payload>`. |
| `Gemini.InlinePayloadNoneIff` | src/lib/gemini.ts:53 | `split(',')[1]` is undefined exactly when the data URL contains no comma. |
| `Gemini.InlinePayloadSegment` | src/lib/gemini.ts:53 | The extracted data is the text after the first comma. It ends at the next comma or at the end of the string, and it contains no comma. |
| `Gemini.BuildRequest` | src/lib/gemini.ts:32-56 | The request has exactly one content entry, and its first part is the prompt text. The generation settings are 0.4, 0.8, 40 and 2048. A second part, `inlineData` with the file's MIME type and the extracted payload, is present exactly when image data exists. |
| `Gemini.ErrorMessage` | src/lib/gemini.ts:72-83 | A message starts with `API error: ` exactly when it reports a status error. |
| `Gemini.ErrorMessageStatus` | src/lib/gemini.ts:72-74 | A status error message has the form `API error: <status> - <body>`. The status digits read back as the status. |
| `Gemini.HandleResponse` | src/lib/gemini.ts:70-84 | A non-ok status always gives the status error, carrying the status and the error body, and no text. An ok status gives `candidates[0].content.parts[0].text` when that path exists with a non-empty parts list. Otherwise it gives the unexpected-format error. |
| `Gemini.HandleResponseReturnsText` | src/lib/gemini.ts:80-81 | An ok reply whose first candidate's first part carries text returns that text, whatever parts follow. |
| `Gemini.HandleResponseEmptyReply` | src/lib/gemini.ts:80-84 | An ok reply with no candidates, an empty candidate list or an empty parts list is an unexpected format. |
| `Gemini.ProcessAlgaeData` | src/lib/gemini.ts:10-89 | The request sent holds the prompt text. It has an inline image part exactly when an image was selected and its data URL is non-empty. The result is the classification of the HTTP response. |
| `AlgaeBiofuelForm.FormState.constructor` | src/components/AlgaeBiofuelForm.tsx:27-35 | The form starts with pH 7, 25 °C, 1000 L, "Weekly" and no image. It has no errors and no preview. It establishes the preview invariant: a preview is shown exactly when an image is selected. |
| `AlgaeBiofuelForm.InitialFormDataValid` | src/components/AlgaeBiofuelForm.tsx:27-33 | The initial form data passes validation. |
| `AlgaeBiofuelForm.ValidIffInRange` | src/components/AlgaeBiofuelForm.tsx:37-57 | Validation passes exactly when all four rules hold: 0 ≤ pH ≤ 14, 0 ≤ temperature ≤ 50, volume > 0 and a non-empty harvest frequency. The bounds are accepted. |
| `AlgaeBiofuelForm.ValidationErrorsExact` | src/components/AlgaeBiofuelForm.tsx:38-54 | The error map has a key exactly for each field whose rule fails, and each key carries its own message. |
| `AlgaeBiofuelForm.CollectErrors` | src/components/AlgaeBiofuelForm.tsx:38-54 | The rules are checked one after the other, each adding its message when it fails. The collected map equals the declarative error map: one entry per failed rule. |
| `AlgaeBiofuelForm.FormState.ValidateForm` | src/components/AlgaeBiofuelForm.tsx:37-58 | The error map is replaced entirely by the errors of the current data. The result is true exactly when that map is empty. The preview invariant is kept. |
| `AlgaeBiofuelForm.WithNumberChangesOnlyName` | src/components/AlgaeBiofuelForm.tsx:68-71 | Writing a number field sets that field and leaves the other fields unchanged. Writing back the old value restores the data. |
| `AlgaeBiofuelForm.FormState.HandleChange` | src/components/AlgaeBiofuelForm.tsx:60-72 | A number input writes only its named field: 0 for empty text, otherwise the parsed value. The preview invariant is kept. |
| `AlgaeBiofuelForm.FormState.HandleSelectChange` | src/components/AlgaeBiofuelForm.tsx:74-79 | Selecting a frequency changes only `harvestFrequency`. The preview invariant is kept. |
| `AlgaeBiofuelForm.FormState.HandleImageChange` | src/components/AlgaeBiofuelForm.tsx:81-111 | A file larger than 5 MiB is refused and changes nothing. A file of at most 5 MiB becomes the image and its data URL becomes the preview. No file clears both. In every case, a preview is shown exactly when an image is set, as it was before the call. |
| `AlgaeBiofuelForm.FormState.RemoveImage` | src/components/AlgaeBiofuelForm.tsx:234-237 | Remove clears both the image and the preview. The preview invariant is kept. |
| `AlgaeBiofuelForm.FormState.HandleSubmit` | src/components/AlgaeBiofuelForm.tsx:113-125 | Submitting replaces the error map by the current errors. It hands on the current form data exactly when every parameter is in range. The preview invariant is kept. |

## Left out

- The network call: the endpoint URL, the API key, `fetch` and `response.json()`. The HTTP status, the error body and the parsed reply are inputs. A body that fails to parse as JSON is not modelled.
- `JSON.stringify` of the error body is an input string. `console.error` and the rethrow are not modelled: the error is returned as a `Failure`.
- `fileToBase64` and `FileReader`: the data URL is a parameter. A reader failure is not modelled.
- The asynchronous preview update: the preview is set at the same time as the image.
- The printing of numbers in the template literal (`${formData.ph}` and the others): it is a parameter `show`, because the shortest round-trip decimal form of a double is not modelled.
- `parseFloat`: its result is a parameter, and the numeric fields are reals. A text that parses to NaN would pass every range check in the source, because NaN compares false. That case cannot be expressed with reals.
- `handleChange` on a text input: the handler is wired only to the three number inputs, so the branch that stores the raw string is not modelled.
- Toasts ("File too large", "Validation Error"): `HandleImageChange` returns whether the file was refused, and `HandleSubmit` returns None instead of showing a toast.
- ReactMarkdown, the JSX markup, the `cn` helper and the page layout in `src/pages/Index.tsx`: `Render` returns which body and which notice the card shows. `src/pages/Index.tsx` is not part of this model.
- Text.ToLower: lowers only the letters A to Z. JavaScript's `toLowerCase` also lowers other letters, so headings with non-ASCII capitals are compared differently.
- Gemini.BuildRequest: it also asks for a selected file before adding the inline part. In the source this follows from the image data being read only when an image is selected.
- GeminiResponse.Classify: its own contract states only that the index is valid. What the index means is stated by `FirstMatch` and `HeadingTextIsGreedyMatch`.
