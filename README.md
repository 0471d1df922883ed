# fileToText core: Arabic transliteration and request validation

fileToText is a small web backend. It takes an uploaded document image and sends it to an OCR engine. It can transliterate or translate the extracted text, and it can produce a .docx file with the results. Nearly all of that work is done by outside libraries and services. Two pieces of its own logic are modelled here.

- **Transliteration** (`transliteration.dfy`, module `Transliteration`). `TranslitMap` is the fixed 30-entry table from an Arabic letter to a short Latin string. `Transliterate` is the specification of the transform: each character is replaced by its table entry, or kept when the table has no entry for it. `TransliterateText` is the loop of `transliterate_text`. It starts from an empty accumulator and appends one lookup per character, and it is proved equal to `Transliterate`. The lemmas prove these facts:
  - the empty text maps to the empty text;
  - unmapped characters, and ASCII text in particular, pass through;
  - mapped characters become exactly their table entry;
  - the transform distributes over concatenation;
  - the output length lies between `|s|` and `2|s|`;
  - a second pass changes nothing (idempotence);
  - two distinct letters give the same output, so no decoder can undo the transform.
- **Request validation** (`app.dfy`, module `App`).
  - `allowed_file` and `get_extension` are built from a model of `rsplit(".", 1)` and an ASCII `lower()`.
  - The upload handler's guard is a function from "file part present or not, and its name" to a verdict.
  - The transliteration handler is a function. Blank text, meaning empty or all whitespace after `strip()`, gives the 400 error. Any other text gives the transliteration.
  - The lemmas cover the edge cases of the filename rule: no dot, a trailing dot, a leading dot, several dots and mixed case. They also give an independent "some dot-free suffix" statement of the rule.
- **Support** (`charsets.dfy`, module `CharSets`). A strictly increasing list of characters has as many distinct elements as it has entries. This is used to count the keys of the table.

`get_extension` raises `IndexError` on a name without a dot. Here it returns `None`. Python's `str.strip()` removes the characters for which `str.isspace()` holds, and `IsSpace` lists exactly those 29 code points.

Idempotence holds for this table. Every table value is ASCII, and every key is an Arabic letter at U+0621 or above. So a transliteration contains no key, and a second pass leaves it unchanged (`TransliterateIdempotent`).

## Model

| member | source | states |
|---|---|---|
| `Transliteration.TableShape` | transliterate.py:5-11 | every value of `TRANSLIT_MAP` has one or two characters, all ASCII, and no key is an ASCII character |
| `Transliteration.TableSize` | transliterate.py:5-11 | `TRANSLIT_MAP` has exactly 30 distinct keys |
| `Transliteration.Lookup` | transliterate.py:16 | `TRANSLIT_MAP.get(c, c)` gives one or two characters, and only ASCII ones when `c` is a key |
| `Transliteration.Transliterate` | transliterate.py:13-17 | the transliteration of `s` has between `|s|` and `2*|s|` characters, so no character is dropped |
| `Transliteration.TransliterateText` | transliterate.py:13-17 | the accumulator loop returns exactly the per-character transliteration of its input; its invariant is that after `i` steps the accumulator holds the transliteration of the first `i` characters |
| `Transliteration.TransliterateEmpty` | transliterate.py:14-17 | the result is empty if and only if the input is empty |
| `Transliteration.TransliterateChar` | transliterate.py:16 | a key becomes exactly its table value; a non-key character is emitted unchanged |
| `Transliteration.TransliterateConcat` | transliterate.py:15-16 | transliterating `a + b` gives the transliteration of `a` followed by that of `b` |
| `Transliteration.TransliteratePassThrough` | transliterate.py:16 | text containing no table key is returned unchanged |
| `Transliteration.TransliterateAscii` | transliterate.py:5-17 | ASCII text is returned unchanged, because no key of the table is ASCII |
| `Transliteration.TransliterateHasNoKeys` | transliterate.py:5-17 | no character of any transliteration is a key of the table |
| `Transliteration.TransliterateIdempotent` | transliterate.py:5-17 | transliterating a transliteration changes nothing |
| `Transliteration.TransliterateNotInvertible` | transliterate.py:7-8 | seen and sad both become "s", so every decoding function fails to recover some input |
| `Transliteration.TransliterateTha` | transliterate.py:6 | tha becomes "th" |
| `Transliteration.TransliterateKhaTa` | transliterate.py:6-7 | kha followed by ta becomes "kht" |
| `Transliteration.TransliterateMixed` | transliterate.py:13-17 | a key of the table, a space and a digit become the key's table value followed by the space and the digit, unchanged |
| `App.LowerCharCases` | app.py:31 | the model of `lower()` on one character changes exactly the letters A-Z, each to the letter 32 code points on, and leaves no A-Z letter; other letters are not lower-cased (see `App.GetExtension` under Left out) |
| `App.LowerPointwise` | app.py:31 | `lower()` on a text keeps its length, keeps every dot and every character outside A-Z in place, and leaves no A-Z letter |
| `App.LowerAgrees` | app.py:31 | two texts that agree letter by letter up to case have the same lower-case form |
| `App.LowerKeepsLowerCase` | app.py:31 | a text without A-Z letters is its own lower-case form |
| `App.LastIndexOf` | app.py:31 | the result is absent exactly when the character does not occur; otherwise it is a position holding the character with no later occurrence |
| `App.RSplitDot` | app.py:31 | `rsplit(".", 1)` gives the whole name when there is no dot; otherwise two parts that rejoin around a dot into the name, the second part free of dots |
| `App.AllowedFile` | app.py:26-31 | a name is allowed exactly when `get_extension` succeeds on it and returns a member of `ALLOWED_EXTENSIONS`, `{"pdf","png","jpg","jpeg"}` |
| `App.GetExtension` | app.py:33-34 | fails exactly when the name has no dot; otherwise it returns the lower-cased text after a dot that is followed by no other dot, i.e. the last one |
| `App.AllowedFileIff` | app.py:26-31 | a name is allowed exactly when some dot followed by no other dot has an allowed extension after it, up to case |
| `App.AllowedFileLastDot` | app.py:31 | `stem + "." + ext` with a dot-free `ext` is allowed exactly when lower-cased `ext` is allowed, whatever the stem holds |
| `App.CaseVariantSplit` | app.py:31 | a name that agrees with another up to case splits at the same last dot, and the two extensions agree up to case |
| `App.AllowedFileIgnoresCase` | app.py:31 | two names that agree up to the case of their letters are both allowed or both refused |
| `App.AllowedFileNeedsDot` | app.py:31 | a name without a dot is refused |
| `App.AllowedFileRejectsFinalExe` | app.py:31 | "a.png.exe" is refused |
| `App.AllowedFileAcceptsFinalPng` | app.py:31 | "a.exe.png" is accepted |
| `App.AllowedFileRejectsTrailingDot` | app.py:31 | "x." (empty extension) is refused |
| `App.AllowedFileAcceptsLeadingDot` | app.py:31 | ".png" (empty stem) is accepted |
| `App.AllowedFileUpperCaseExample` | app.py:31 | "SCAN.JPG" is accepted |
| `App.UploadGuard` | app.py:43-52 | with no file part the reply is 400 "No file uploaded"; with a file part the reply is 400 "Invalid file type" when the name is empty or `allowed_file` refuses it, and the handler proceeds when `allowed_file` accepts it; it proceeds only with a name whose extension is defined and allowed |
| `App.UploadGuardAcceptsAllowed` | app.py:51-52 | for a present file, the guard proceeds exactly when `allowed_file` holds, so the empty-name test adds nothing |
| `App.IsSpaceClasses` | app.py:126 | space, tab, line feed and carriage return are whitespace for `strip()`, and no digit, ASCII letter or dot is |
| `App.StripStart` | app.py:126 | `lstrip()` returns a suffix of its input; that suffix is empty or starts with a non-space, and everything removed is whitespace |
| `App.StripEnd` | app.py:126 | `rstrip()` returns a prefix of its input; that prefix is empty or ends with a non-space, and everything removed is whitespace |
| `App.StripEnds` | app.py:126 | `strip()` gives a text that is empty or neither starts nor ends with whitespace |
| `App.StripSlice` | app.py:126 | `strip()` gives the slice of the text that starts where `lstrip()` stops; everything before and after it is whitespace |
| `App.StripEmptyIffBlank` | app.py:126 | `strip()` gives the empty text exactly when every character is whitespace |
| `App.TransliterateRequest` | app.py:121-130 | a missing "text" field reads as empty; the reply is a transliteration exactly when the text has a non-whitespace character, and it then equals the transliteration of the text; otherwise it is 400 "No text provided" |

## Left out

- The Flask routes, `request`/`jsonify`/`send_file`, template rendering and saving the upload to disk are web and file I/O. The guards are modelled as functions of the values the handlers read.
- The OCR engines are not modelled. EasyOCR, Mistral OCR over HTTP and Tesseract with PIL are foreign libraries or network services, and the Mistral file upload and delete helpers are HTTP clients with no logic of their own.
- `/translate` calls `translate_text` from a `translate` module that is not part of this model. Its blank-text guard (app.py:114) is the same test as the one modelled in `TransliterateRequest`.
- `/download` builds a .docx with python-docx into a byte buffer. It is left out as document I/O.
- The commented-out image optimisation is left out. It is dead code and floating-point image work.
- `secure_filename` is a Werkzeug call whose behaviour is not visible here. The guard is modelled up to the point where it is called.
- A body that Flask cannot parse as JSON is refused by Flask itself with a 400 (or 415) error. A JSON body that is not an object, or whose "text" field is not a string, makes the handler raise `AttributeError`. The model takes the field as an optional string.
- `App.GetExtension` lowercases only the ASCII letters A-Z, while Python's `str.lower()` lowercases all of Unicode. The same holds for `App.LowerChar` and `App.Lower`, whose properties are stated in `App.LowerCharCases` and `App.LowerPointwise`. So the extension it returns can differ from Python's for names with non-ASCII letters. Only U+0130 (to "i" plus U+0307) and U+212A (to "k") lowercase into ASCII, and neither gives a letter of pdf, png, jpg or jpeg. So the `allowed_file` verdict is the same either way. This is argued here, not proved.
- `App.IsSpace` takes Python's whitespace set from one version of the Unicode database, and a later Unicode version could change it. The count of 29 code points is read off its ranges, not proved.
- Python strings can hold lone surrogate code points, and Dafny's `char` cannot. Such inputs are not modelled.
