# Resume builder: a Dafny model of the editing core and the PDF export

The resume builder is a React application. The user fills in five tabbed forms:
- personal information;
- education;
- experience;
- projects;
- skills.

Each form hands its section's new value to `updateResumeData`, which writes it into the `ResumeData` document. A button appends a fixed sentence to the summary; this simulates an AI enhancement. The export captures the rendered preview as one tall image and prints it on A4 pages. It repeats the image once per page, each time shifted up one more page height. The file is named after the person.

This project models that core as immutable datatypes and pure functions, and proves what each operation promises. Three operations are methods with loops: the page-placement loop of the export (`PdfGenerator.Paginate`), the greedy `\s+` match (`Text.SkipRun`), and the left-to-right replacement scan built on it (`Text.ReplaceWsRuns`). Each is proved equal to a pure definition.

| file | module | what it holds |
|---|---|---|
| `wrappers.dfy` | `Wrappers` | `Option` and `Result` |
| `text.dfy` | `Text` | JavaScript `\s`, `String.prototype.trim`, and `replace(/\s+/g, "_")` |
| `seq_edit.dfy` | `SeqEdit` | the three list edits every form uses: spread-append, index `map`, index `filter` |
| `personal_info_form.dfy` | `PersonalInfoForm` | the seven-field record and `updateField` |
| `education_form.dfy`, `experience_form.dfy`, `projects_form.dfy` | `EducationForm`, `ExperienceForm`, `ProjectsForm` | the entry records and their add, update and remove handlers |
| `skills_form.dfy` | `SkillsForm` | categories with nested item lists, and the pending-input map keyed by category index |
| `resume_builder.dfy` | `ResumeBuilder` | `ResumeData`, the initial document, `updateResumeData`, the enhancement, and the wiring of every form action to its section |
| `pdf_generator.dfy` | `PdfGenerator` | the missing-preview guard, image scaling, the page loop with its closed form, and the file name |

Some choices that shape the model:
- **White space.** `Text.IsWs` is the ECMA-262 `\s` class: the WhiteSpace code points of section 12.2 and the LineTerminator code points of section 12.3. `trim` strips that same class, and `Trim`, `CollapseWs` and `FileName` are all defined over it.
- **Geometry.** It is exact `real` arithmetic.
- **Page offsets.** The offset of page `k` is `Offset(k, p)`: `k` page heights added one at a time, as the loop's repeated `heightLeft -= pdfHeight` does. `OffsetIsProduct` proves it equals `k * p`.
- **Page count.** The loop produces `floor(imgHeight / pdfHeight) + 1` pages. An image exactly a whole number of pages tall therefore gets a trailing page that shows nothing of it. The model keeps that behaviour. A plain description of the export as "as many pages as the image needs" would give `ceil`. The code gives one more page at exact multiples, and the model follows the code.
- **Actions.** A user action is a value of `ResumeBuilder.Action`. `ResumeBuilder.Step` applies it: the form computes the value it would hand to `onChange`, and the builder writes that value into the form's own section.

## Model

| member | source | states |
|---|---|---|
| ResumeBuilder.Initial | src/components/ResumeBuilder.tsx:54-68 | the starting document has all seven personal fields empty and all four lists empty |
| ResumeBuilder.Section | src/components/ResumeBuilder.tsx:16-52 | reading a section of the document yields a value tagged with that section's key |
| ResumeBuilder.UpdateResumeData | src/components/ResumeBuilder.tsx:177-182 | the named section holds the new value afterwards, and every other section is as it was |
| ResumeBuilder.UpdateIdempotent | src/components/ResumeBuilder.tsx:177-182 | applying the same section update twice is the same as applying it once |
| ResumeBuilder.UpdateLastWins | src/components/ResumeBuilder.tsx:178-181 | of two updates to one section only the second is visible |
| ResumeBuilder.UpdateWithCurrent | src/components/ResumeBuilder.tsx:178-181 | writing back a section's current value leaves the document unchanged |
| ResumeBuilder.Extensionality | src/components/ResumeBuilder.tsx:16-52 | two documents that agree on all five sections are equal |
| ResumeBuilder.EnhanceWithAI | src/components/ResumeBuilder.tsx:148-156 | the summary becomes the old summary followed by the fixed 58-character sentence; the other six personal fields and the four lists are unchanged |
| ResumeBuilder.EnhanceRepeatedly | src/components/ResumeBuilder.tsx:148-156 | pressing enhance n times appends n copies of the sentence and changes nothing else |
| ResumeBuilder.SummaryAfterEnhancing | src/components/ResumeBuilder.tsx:148 | after n presses the summary is the original followed by n copies of the sentence |
| ResumeBuilder.OtherFieldsAfterEnhancing | src/components/ResumeBuilder.tsx:152-155 | after n presses every personal field other than the summary is as it was |
| ResumeBuilder.OtherSectionsAfterEnhancing | src/components/ResumeBuilder.tsx:150-151 | after n presses every list section is as it was |
| ResumeBuilder.OnChange | src/components/ResumeBuilder.tsx:242-274 | the value a form hands to `onChange` is always a value for that form's own section |
| ResumeBuilder.PendingAfter | src/components/resume-forms/SkillsForm.tsx:19-69 | only typing into a skill input and a successful Enter or Add change the pending inputs; adding, renaming or removing a category and removing an item leave the map exactly as it was, never re-keyed |
| ResumeBuilder.Step | src/components/ResumeBuilder.tsx:242-274 | when a form calls `onChange`, its section becomes that value; when it does not, the document is unchanged; every other section is always unchanged; the pending inputs change only on typing into a skill input or on Enter or Add |
| ResumeBuilder.EnhanceStep | src/components/ResumeBuilder.tsx:150-156 | the enhance button changes the document exactly as `EnhanceWithAI` does |
| ResumeBuilder.OtherKeyChangesNothing | src/components/resume-forms/SkillsForm.tsx:64-69 | a key other than Enter in a skill input leaves the whole editor unchanged: the document and every pending input |
| ResumeBuilder.EnterIsAddButton | src/components/resume-forms/SkillsForm.tsx:64-69 | Enter in a skill input has exactly the effect of that category's Add button, on the document and on the pending inputs |
| ResumeBuilder.SubmissionStep | src/components/resume-forms/SkillsForm.tsx:38-69 | Enter or Add either leaves the whole editor as it was or installs exactly the skills list and the pending map that `addSkillItem` computed, changing no other section |
| ResumeBuilder.RemoveCategoryStep | src/components/resume-forms/SkillsForm.tsx:60-62 | removing a category replaces the skills list by the list without it and leaves every other section and the whole pending map as they were |
| ResumeBuilder.RemoveThenAddShifts | src/components/resume-forms/SkillsForm.tsx:38-62 | from any editor, removing category i and then pressing Add at index i gives the list without category i in which the category that followed it has the removed one's leftover text appended, and only input i is cleared |
| ResumeBuilder.TypeThenEnter | src/components/resume-forms/SkillsForm.tsx:38-69 | typing text that is not all white space into category i's input and pressing Enter appends the trimmed text to category i's items and empties that input, from any editor state |
| PersonalInfoForm.UpdateField | src/components/resume-forms/PersonalInfoForm.tsx:21-23 | field f holds v afterwards and the six other fields are unchanged |
| PersonalInfoForm.LastWriteWins | src/components/resume-forms/PersonalInfoForm.tsx:22 | of two updates to the same field only the last value remains |
| PersonalInfoForm.UpdateWithCurrent | src/components/resume-forms/PersonalInfoForm.tsx:22 | writing a field's current value back returns an equal record |
| PersonalInfoForm.DistinctFieldsCommute | src/components/resume-forms/PersonalInfoForm.tsx:22 | updates to two different fields give the same record in either order |
| PersonalInfoForm.Extensionality | src/components/resume-forms/PersonalInfoForm.tsx:5-13 | two records that agree on all seven fields are equal |
| EducationForm.SetField | src/components/resume-forms/EducationForm.tsx:38 | the spread sets field f to v and keeps the other five fields |
| EducationForm.AddEducation | src/components/resume-forms/EducationForm.tsx:22-34 | one more entry, with all six fields empty, after the existing entries in their order |
| EducationForm.UpdateEducation | src/components/resume-forms/EducationForm.tsx:36-41 | the length is kept; entry i has field f set to v and its other fields kept; every other entry is unchanged; an out-of-range i leaves the list as it was |
| EducationForm.RemoveEducation | src/components/resume-forms/EducationForm.tsx:43-45 | an in-range i gives `data[..i] + data[i+1..]`, one shorter; an out-of-range i leaves the list as it was |
| EducationForm.AddThenRemoveLast | src/components/resume-forms/EducationForm.tsx:22-45 | adding an entry and then removing the last index gives back the original list |
| EducationForm.LastWriteWins | src/components/resume-forms/EducationForm.tsx:36-41 | of two edits to the same field of the same entry only the last survives |
| EducationForm.UpdateWithCurrent | src/components/resume-forms/EducationForm.tsx:36-41 | writing back an entry's current field value leaves the list unchanged |
| EducationForm.Extensionality | src/components/resume-forms/EducationForm.tsx:7-14 | two entries that agree on all six fields are equal |
| ExperienceForm.SetField | src/components/resume-forms/ExperienceForm.tsx:39 | the spread sets field f to v and keeps the other five fields |
| ExperienceForm.AddExperience | src/components/resume-forms/ExperienceForm.tsx:23-35 | one more entry, with all six fields empty, after the existing entries in their order |
| ExperienceForm.UpdateExperience | src/components/resume-forms/ExperienceForm.tsx:37-42 | the length is kept; entry i has field f set to v and its other fields kept; every other entry is unchanged; an out-of-range i leaves the list as it was |
| ExperienceForm.RemoveExperience | src/components/resume-forms/ExperienceForm.tsx:44-46 | an in-range i gives `data[..i] + data[i+1..]`, one shorter; an out-of-range i leaves the list as it was |
| ExperienceForm.AddThenRemoveLast | src/components/resume-forms/ExperienceForm.tsx:23-46 | adding an entry and then removing the last index gives back the original list |
| ExperienceForm.LastWriteWins | src/components/resume-forms/ExperienceForm.tsx:37-42 | of two edits to the same field of the same entry only the last survives |
| ExperienceForm.UpdateWithCurrent | src/components/resume-forms/ExperienceForm.tsx:37-42 | writing back an entry's current field value leaves the list unchanged |
| ExperienceForm.Extensionality | src/components/resume-forms/ExperienceForm.tsx:8-15 | two entries that agree on all six fields are equal |
| ProjectsForm.SetField | src/components/resume-forms/ProjectsForm.tsx:35 | the spread sets field f to v and keeps the other three fields |
| ProjectsForm.AddProject | src/components/resume-forms/ProjectsForm.tsx:21-31 | one more entry, with all four fields empty, after the existing entries in their order |
| ProjectsForm.UpdateProject | src/components/resume-forms/ProjectsForm.tsx:33-38 | the length is kept; entry i has field f set to v and its other fields kept; every other entry is unchanged; an out-of-range i leaves the list as it was |
| ProjectsForm.RemoveProject | src/components/resume-forms/ProjectsForm.tsx:40-42 | an in-range i gives `data[..i] + data[i+1..]`, one shorter; an out-of-range i leaves the list as it was |
| ProjectsForm.AddThenRemoveLast | src/components/resume-forms/ProjectsForm.tsx:21-42 | adding an entry and then removing the last index gives back the original list |
| ProjectsForm.LastWriteWins | src/components/resume-forms/ProjectsForm.tsx:33-38 | of two edits to the same field of the same entry only the last survives |
| ProjectsForm.UpdateWithCurrent | src/components/resume-forms/ProjectsForm.tsx:33-38 | writing back an entry's current field value leaves the list unchanged |
| ProjectsForm.Extensionality | src/components/resume-forms/ProjectsForm.tsx:8-13 | two entries that agree on all four fields are equal |
| SkillsForm.AddSkillCategory | src/components/resume-forms/SkillsForm.tsx:21-29 | one more category, with an empty name and no items, after the existing ones in their order |
| SkillsForm.AddThenRemoveLast | src/components/resume-forms/SkillsForm.tsx:21-62 | removing the last category (`removeCategory`, lines 60-62) after adding one (`addSkillCategory`, lines 21-29) gives back the original list |
| SkillsForm.UpdateCategory | src/components/resume-forms/SkillsForm.tsx:31-36 | only the name of category i changes; its items and all other categories are unchanged; an out-of-range i changes nothing |
| SkillsForm.RenameLastWins | src/components/resume-forms/SkillsForm.tsx:31-36 | of two renames of the same category only the second is visible |
| SkillsForm.RenameWithCurrent | src/components/resume-forms/SkillsForm.tsx:31-36 | writing back a category's current name leaves the list unchanged |
| SkillsForm.TypePending | src/components/resume-forms/SkillsForm.tsx:116-118 | the input of category i now holds the typed text; every other index keeps its pending text, and no key appears or disappears |
| SkillsForm.PendingSkill | src/components/resume-forms/SkillsForm.tsx:39-40 | there is no skill to add exactly when nothing was typed for the index or only white space was; a skill to add neither starts nor ends with white space and is no longer than the typed text |
| SkillsForm.AddSkillItem | src/components/resume-forms/SkillsForm.tsx:38-49 | nothing happens exactly when no text is pending for the index or the text is all white space; otherwise the trimmed text is appended to category i's items only, other categories are unchanged, and the pending text of i, and of no other index, becomes empty |
| SkillsForm.AddedSkillIsTrimmed | src/components/resume-forms/SkillsForm.tsx:39-44 | an added skill is non-empty and neither starts nor ends with white space |
| SkillsForm.RemoveSkillItem | src/components/resume-forms/SkillsForm.tsx:51-58 | category ci loses item si by index filter and keeps its name; every other category is unchanged |
| SkillsForm.RemoveCategory | src/components/resume-forms/SkillsForm.tsx:60-62 | category i is removed and the others close up; an out-of-range i changes nothing |
| SkillsForm.PendingInputShiftsAfterRemoval | src/components/resume-forms/SkillsForm.tsx:48-61 | the pending map is not re-keyed on removal, so the text left in a removed category's input is, on the next add at that index, appended to the category that followed the removed one |
| SkillsForm.TypedTextSkipsAfterRemoval | src/components/resume-forms/SkillsForm.tsx:48-61 | for the same reason, text typed for the category just after a removed one is, on the next add at that index, appended to the category two places after the removed one |
| SeqEdit.Append | src/components/resume-forms/EducationForm.tsx:23-33 | spread-append keeps the old entries as a prefix and puts the new one last |
| SeqEdit.MapAt | src/components/resume-forms/EducationForm.tsx:37-39 | the index map keeps the length, changes only position i, and leaves the list as it was when i is out of range |
| SeqEdit.RemoveAt | src/components/resume-forms/EducationForm.tsx:44 | the index filter drops exactly position i, and drops nothing when i is out of range |
| SeqEdit.RemoveAtShifts | src/components/resume-forms/EducationForm.tsx:44 | entries before i keep their index and those after i move down by one |
| Text.IsWsMatchesTable | src/utils/pdfGenerator.ts:46 | the white-space predicate behind `\s` and `trim` (also used at src/components/resume-forms/SkillsForm.tsx:39) holds of exactly the listed ECMA-262 WhiteSpace and LineTerminator code points, and not of the underscore |
| Text.Trim | src/components/resume-forms/SkillsForm.tsx:39 | `trim` returns a contiguous slice of the input; only white space is cut from either end; the result neither starts nor ends with white space; it is empty exactly when the input is all white space |
| Text.TrimOfPadded | src/components/resume-forms/SkillsForm.tsx:39 | white space, then a core that neither starts nor ends with white space, then white space, trims to exactly that core |
| Text.TrimIdempotent | src/components/resume-forms/SkillsForm.tsx:39 | trimming twice is trimming once |
| Text.CollapseWs | src/utils/pdfGenerator.ts:46 | the collapsed name holds no white space and is never longer than the input |
| Text.CollapseNoWs | src/utils/pdfGenerator.ts:46 | text without white space passes through unchanged |
| Text.CollapseRun | src/utils/pdfGenerator.ts:46 | a non-empty run of white space becomes a single underscore |
| Text.CollapseAppend | src/utils/pdfGenerator.ts:46 | collapsing distributes over concatenation when the join does not glue two white-space runs together |
| Text.CollapseIdempotent | src/utils/pdfGenerator.ts:46 | collapsing twice is collapsing once |
| Text.CollapseKeepsVisible | src/utils/pdfGenerator.ts:46 | the characters that are neither white space nor underscore are the same, in the same order, before and after collapsing |
| Text.SkipRun | src/utils/pdfGenerator.ts:46 | the greedy `\s+` match starting at i ends where the white-space run starting at i ends |
| Text.ReplaceWsRuns | src/utils/pdfGenerator.ts:46 | a left-to-right regular-expression scan that emits one underscore per run computes exactly the recursive collapse |
| PdfGenerator.GeneratePdf | src/utils/pdfGenerator.ts:5-50 | it fails with the missing-preview error exactly when the preview is absent, before any page is made; otherwise it produces the paginated layout and the name derived from the full name |
| PdfGenerator.ImageHeight | src/utils/pdfGenerator.ts:26-27 | the scaled image keeps the capture's aspect ratio at page width, and its height is not negative |
| PdfGenerator.Paginate | src/utils/pdfGenerator.ts:29-42 | at least one page; the first page at offset 0; every page at x = 0 with page width and scaled height; page k at offset -k page heights; `floor(imgHeight / pdfHeight) + 1` pages; equal to the closed-form layout |
| PdfGenerator.PageCount | src/utils/pdfGenerator.ts:29-42 | n - 1 page heights fit within the image and n page heights exceed it, with n at least 1 |
| PdfGenerator.PageCountCharacterised | src/utils/pdfGenerator.ts:34-41 | the page count is the one n >= 1 with (n - 1) page heights <= image height < n page heights |
| PdfGenerator.OffsetIsProduct | src/utils/pdfGenerator.ts:34-41 | taking the page height off k times is taking k times the page height off |
| PdfGenerator.OffsetGrows | src/utils/pdfGenerator.ts:38-41 | a later page lies at least one page height further up |
| PdfGenerator.PageLeftMeansMore | src/utils/pdfGenerator.ts:37 | while height is left, fewer pages than the page count have been placed, so the loop terminates |
| PdfGenerator.SinglePageWhenShort | src/utils/pdfGenerator.ts:37 | an image shorter than a page gets exactly one page |
| PdfGenerator.ExactMultipleAddsPage | src/utils/pdfGenerator.ts:37 | an image exactly m pages tall gets m + 1 pages |
| PdfGenerator.TwoPageHeightsGiveThreePages | src/utils/pdfGenerator.ts:37 | an image two pages tall gets three pages |
| PdfGenerator.PageCountMonotone | src/utils/pdfGenerator.ts:29-42 | a taller image never gets fewer pages |
| PdfGenerator.PagesTopToBottom | src/utils/pdfGenerator.ts:38-40 | offsets strictly decrease from page to page |
| PdfGenerator.EveryRowOnSomePage | src/utils/pdfGenerator.ts:33-42 | every row of the image falls inside some page |
| PdfGenerator.EveryRowOnOnePage | src/utils/pdfGenerator.ts:33-42 | no row of the image falls inside two pages |
| PdfGenerator.LastPageBlankIffExactMultiple | src/utils/pdfGenerator.ts:37-41 | the last page shows nothing of the image exactly when the image height is a whole number of page heights |
| PdfGenerator.A4Example | src/utils/pdfGenerator.ts:22-27 | a 1000 by 3500 pixel capture on 210 by 297 mm pages is 735 mm tall and takes three pages |
| PdfGenerator.FileName | src/utils/pdfGenerator.ts:45-47 | the name has no white space and ends in `Resume.pdf`; it is exactly `Resume.pdf` when the full name is empty; it is at most the full name's length plus the suffix's |
| PdfGenerator.FileNameKeepsName | src/utils/pdfGenerator.ts:45-47 | the characters of the file name that are neither white space nor underscore are exactly those of the full name, followed by `Resume.pdf` |
| PdfGenerator.FileNameOfThreeWords | src/utils/pdfGenerator.ts:46 | three words separated by any white-space runs give the words joined by single underscores, then `_Resume.pdf` |
| PdfGenerator.FileNameOfSpacedName | src/utils/pdfGenerator.ts:45-47 | `Jane   Q. Doe` gives `Jane_Q._Doe_Resume.pdf` |
| PdfGenerator.FileNameOfEmptyName | src/utils/pdfGenerator.ts:47 | an empty name gives `Resume.pdf` |
| PdfGenerator.FileNameOfRun | src/utils/pdfGenerator.ts:45-46 | a name that is one white-space run gives an underscore followed by `_Resume.pdf` |
| PdfGenerator.FileNameOfBlankName | src/utils/pdfGenerator.ts:45-46 | a name of only white space is not empty, so it gives `__Resume.pdf` |

## Left out
- html2canvas capture and PNG encoding (src/utils/pdfGenerator.ts:13-19): these are a foreign library and the DOM. The capture's pixel width and height are inputs, and the preview element is an `Option` of that capture.
- jsPDF (`new jsPDF`, `addImage`, `addPage`, `save`): the PDF is the ordered list of placements and the file name. The page size the library reports is an input; the A4 example uses the nominal ISO 216 size of 210 by 297 mm.
- IEEE-754 rounding in `imgHeight` and in the repeated `heightLeft -= pdfHeight`: geometry is exact `real`. A float-induced flip of the `heightLeft >= 0` test at an exact multiple is not reproduced.
- A capture of width 0: `ImageHeight`, `Paginate` and `GeneratePdf` require a positive width. In the source, a zero-width capture of positive height makes `imgHeight` equal to `Infinity`. Then `heightLeft` stays `Infinity` after every subtraction, the `heightLeft >= 0` test at src/utils/pdfGenerator.ts:37 never fails, and the loop adds pages without end. A zero-by-zero capture gives `NaN`, which fails the test at once and yields a single page. `Paginate`'s termination measure exists only because the requirement excludes the first case.
- The `try`/`catch` that logs and rethrows: the model returns the error instead.
- Supabase loading, saving, authentication and sign-out (src/components/ResumeBuilder.tsx:80-141, 173-175): these are network I/O. Their `as any` casts do no validation, so they have nothing to model.
- React state, hooks, toasts, the `saving` and `enhancing` flags, `async`/`await` and `console.error`: these are UI plumbing.
- All JSX rendering, including src/components/ResumePreview.tsx and its date formatting. src/pages/Index.tsx is not part of this model either; it only selects a view.
- ResumeBuilder.EnhanceWithAI: it reads the summary from the document it is given. The source reads it from the render-time closure and writes it through a functional `setResumeData`. The two agree unless another update to the summary lands in between.
- ResumeBuilder.UpdateResumeData: the payload is a value tagged with its section, not `any`. The model therefore cannot put a value of the wrong shape into a section, which the source's types do not rule out.
- SkillsForm.PendingSkill: JavaScript object keys are strings, so `newSkillInputs[categoryIndex]` is keyed by the index's decimal form. The model keys by the integer, which is the same for the non-negative indices the form produces.
- The pending skill inputs are component state of the skills form. The tab component may unmount the form and reset them when another tab is shown. The model keeps them for the whole session.
- `e.preventDefault()` in `handleKeyPress`: this is an event-system effect with no state to model.
