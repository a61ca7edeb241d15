/** The storage key names and the built-in sample document (lib/constants.ts). */
module Constants {

  const StorageNamespace: string := "md-live-preview"
  const KeyContent: string := "content"
  const KeySyncScroll: string := "syncScroll"
  const KeyTheme: string := "theme"
  const KeyNavbarExpanded: string := "navbarExpanded"

  /** A namespaced storage key, `${STORAGE_NAMESPACE}:${name}`. */
  function StorageKey(name: string): (k: string)
    ensures |k| == |StorageNamespace| + 1 + |name|
    ensures k[..|StorageNamespace|] == StorageNamespace && k[|StorageNamespace|] == ':'
    ensures k[|StorageNamespace| + 1..] == name
  {
    StorageNamespace + ":" + name
  }

  /** Different names give different storage keys, so the preferences and the document never share an entry. */
  lemma StorageKeyInjective(a: string, b: string)
    requires a != b
    ensures StorageKey(a) != StorageKey(b)
  {
    assert StorageKey(a)[|StorageNamespace| + 1..] == a;
  }

  /** The sample document the editor starts with and returns to on reset. */
  const DefaultMarkdown: string := @"# Markdown syntax guide

## Headers

# Heading 1
## Heading 2
###### Heading 6

## Emphasis

*Italic* and **bold**
_You **can** combine them_

## Lists

### Unordered

* Item 1
* Item 2
  * Nested

### Ordered

1. First
2. Second
3. Third

## Links & Images

[Link text](https://example.com)

![Markdown](/markdown.svg ""Markdown logo"")

## Blockquotes

> Markdown is a lightweight markup language with plain-text-formatting syntax.

## Tables

| Left   | Center | Right |
| :----- | :----: | ----: |
| left   | center | right |

## Code

Inline `code` and a block:

```js
const hello = 'world';
console.log(hello);
```
"
}
