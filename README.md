# ptipython_enhancer package helpers, modelled in Dafny

`ptipython_enhancer` adds a few package-management helpers to an interactive
IPython session. It can build and run `pip install` invocations, tell whether a
package is installed, and ask the PyPI index for the latest stable release of a
package. This project models the decision logic of those helpers. All of it
lives in `ptipython_enhancer/utilities/__init__.py`:

- `Text`: Python's substring test `sub in s` (`Contains`) and `str.lower()`
  (`Lower`). `EqualIgnoringCase` is an independent definition of "equal up to
  letter case". Lower-casing is proved to identify exactly the strings that are
  equal up to letter case.
- `PackageManager`: the shared `INSTALL_COMMAND` prefix. A target is either a
  bare name or a list of names. `get_install_command` is modelled, with its
  inverse `PackageArgs` and round trips in both directions. So is the argument
  list `install_package` actually runs in each of its two branches. The
  case-insensitive `is_package_installed` test works over an injected set of
  distribution keys.
- `PyPIManager`: the index response is modelled as its status code plus its
  release keys. A non-200 status gives the empty list. The literal substring
  filter keeps versions that contain none of `"a"`, `"b"`, `"rc"`, and the last
  survivor is picked. The lemmas prove that the pick passes the filter, comes
  from the list, and has no passing version after it. It is absent exactly when
  nothing passes or the request failed. On a list sorted by any order it is the
  greatest passing version.
- `Installer`: `pip_install` as a method with a loop. A bare name becomes a
  one-element list. Each name is installed in list order with
  `pip install <name>`, and a progress task (a small class) is advanced once
  per package.

The filter is a plain substring test, not PEP 440 pre-release detection.
`DevReleasePassesFilter` shows that `1.0.dev1` passes it.
`LocalLabelWithLetterIsDropped` shows that the filter alone would drop a final
version labelled `1.0+ubuntu`. The index refuses local labels, so that key never
reaches the filter from a fetch. The model keeps the filter as written.

`INSTALL_COMMAND` is `["pip", "install"]`, so every command starts with `pip`.

## Model

| member | source | states |
|---|---|---|
| Text.Contains | ptipython_enhancer/utilities/__init__.py:55 | the empty string is in every string, and a string is only found in one at least as long |
| Text.ContainsIffOccurs | ptipython_enhancer/utilities/__init__.py:55 | `sub in s` holds exactly when some contiguous slice of `s` equals `sub` |
| Text.ContainsChar | ptipython_enhancer/utilities/__init__.py:55 | a one-character needle is in `s` exactly when that character occurs in `s` |
| Text.AbsentFirstCharNotContained | ptipython_enhancer/utilities/__init__.py:55 | a needle whose first character does not occur in `s` is not in `s` |
| Text.LowerChar | ptipython_enhancer/utilities/__init__.py:125 | lower-casing a character maps an upper-case ASCII letter to its lower-case partner, keeps everything else, and never yields an upper-case letter |
| Text.Lower | ptipython_enhancer/utilities/__init__.py:125 | `name.lower()` keeps the length and lower-cases every position |
| Text.LowerEqualIffEqualIgnoringCase | ptipython_enhancer/utilities/__init__.py:125 | two strings lower-case to the same string if and only if they are equal up to ASCII letter case |
| Text.LowerIdempotent | ptipython_enhancer/utilities/__init__.py:125 | lower-casing an already lower-cased name changes nothing |
| PackageManager.Names | ptipython_enhancer/utilities/__init__.py:78-81 | a bare name stands for the one-element list holding it; a list stands for itself |
| PackageManager.GetInstallCommand | ptipython_enhancer/utilities/__init__.py:66-81 | every command starts with `pip`, `install`, has length 2 plus the number of names, and lists the names in the same order after the prefix |
| PackageManager.PackageArgs | ptipython_enhancer/utilities/__init__.py:78-81 | the package arguments of a command are the positions after the two-word prefix |
| PackageManager.PackageArgsOfInstallCommand | ptipython_enhancer/utilities/__init__.py:78-81 | reading back the package arguments of a built command gives the target's names |
| PackageManager.InstallCommandOfPackageArgs | ptipython_enhancer/utilities/__init__.py:78-79 | any argument list starting with `pip install` is the command built from its own package arguments |
| PackageManager.SingleIsOneElementList | ptipython_enhancer/utilities/__init__.py:78-81 | a bare name and the one-element list holding it both give exactly `["pip", "install", name]` |
| PackageManager.InstallCommandPrefixIsShared | ptipython_enhancer/utilities/__init__.py:17-20 | `INSTALL_COMMAND` is `["pip", "install"]`, and every command built from it begins with that same prefix, whatever was built before |
| PackageManager.InstallPackageCommand | ptipython_enhancer/utilities/__init__.py:94-112 | an install can start exactly when output is shown or the target is a bare name; when it starts it runs the same argument list as `get_install_command`, even on the silent branch that writes the list itself |
| PackageManager.IsPackageInstalled | ptipython_enhancer/utilities/__init__.py:124-125 | an installed name equals some key up to letter case; a lower-case key equal to the name up to letter case makes it installed |
| PackageManager.IsPackageInstalledIgnoresCase | ptipython_enhancer/utilities/__init__.py:124-125 | two names equal up to letter case get the same installed answer |
| PackageManager.IsPackageInstalledIffKeyMatches | ptipython_enhancer/utilities/__init__.py:124-125 | when the keys are lower-case, a name is installed if and only if some key equals it up to letter case |
| PyPIManager.GetPyPIPackageVersions | ptipython_enhancer/utilities/__init__.py:34-42 | a non-200 status yields the empty list; status 200 yields the ordered release keys |
| PyPIManager.IsStable | ptipython_enhancer/utilities/__init__.py:55 | a version passes exactly when it has no letter `a`, no letter `b` and no `rc` |
| PyPIManager.StableVersions | ptipython_enhancer/utilities/__init__.py:55 | the filtered list holds exactly the listed versions that contain none of `a`, `b`, `rc` and is no longer than the input |
| PyPIManager.StableVersionsOfOne | ptipython_enhancer/utilities/__init__.py:55 | a one-element list keeps its element exactly when it passes the filter |
| PyPIManager.StableVersionsAppend | ptipython_enhancer/utilities/__init__.py:55 | filtering a concatenation concatenates the filtered parts, so the filter keeps order and repeats |
| PyPIManager.LatestStable | ptipython_enhancer/utilities/__init__.py:55-60 | a present pick passes the filter and is in the list; it is absent if and only if no listed version passes |
| PyPIManager.GetLatestStableVersion | ptipython_enhancer/utilities/__init__.py:54-60 | a failed fetch gives absent; a present result passes the filter and is a release key; absent if and only if the fetch failed or no key passes |
| PyPIManager.LatestStableIsLastSurvivor | ptipython_enhancer/utilities/__init__.py:55-57 | a present pick occurs at a position after which no version passes the filter |
| PyPIManager.LatestStableIsGreatest | ptipython_enhancer/utilities/__init__.py:38-57 | on a list sorted by an ordering, the pick is at least every version that passes the filter |
| PyPIManager.FailedFetchHasNoLatest | ptipython_enhancer/utilities/__init__.py:36-42 | a non-200 response gives no latest stable version, whatever its body |
| PyPIManager.AlphaReleaseIsSkipped | ptipython_enhancer/utilities/__init__.py:54-60 | releases `1.0`, `1.1a1`, `1.1` give `1.1` |
| PyPIManager.DevReleasePassesFilter | ptipython_enhancer/utilities/__init__.py:55 | `1.0.dev1` passes the substring filter |
| PyPIManager.LocalLabelWithLetterIsDropped | ptipython_enhancer/utilities/__init__.py:55 | the substring filter alone drops `1.0+ubuntu` |
| Installer.ProgressTask.constructor | ptipython_enhancer/utilities/__init__.py:213 | a new task has the list length as total and no steps done |
| Installer.ProgressTask.Advance | ptipython_enhancer/utilities/__init__.py:217 | advancing adds exactly one completed step |
| Installer.PipInstall | ptipython_enhancer/utilities/__init__.py:197-217 | a bare name becomes a one-element list; the names are installed in list order, each with `pip install <name>`; progress advances once per package, matching its total |

## Left out

- The HTTP request to PyPI and JSON decoding (`ptipython_enhancer/utilities/__init__.py:34-37`) are network I/O. Only the status code and the release keys enter the model, as a `Response` value.
- Errors of the fetch step are not modelled. `requests.get` (line 35), `response.json()` (line 37), the `data["releases"]` lookup and `parse_version` on a key that is not a valid version (line 38) can each raise. Neither `get_pypi_package_versions` nor `get_latest_stable_version` catches them, so they reach the caller. `PyPIManager.GetLatestStableVersion` always returns a value.
- The messages printed when the fetch fails (line 41) and when no stable version is found (line 59) are console output and are not modelled.
- PEP 440 ordering by `parse_version` (line 38) is a library call. `Response.releaseKeys` stands for the keys already in that order. `PyPIManager.LatestStableIsGreatest` takes any ordering the list is sorted by.
- Text.LowerChar: lower-cases ASCII letters only; other Unicode letters are kept as they are.
- Text.Lower: models `str.lower()` for ASCII letters only. Python also lower-cases other Unicode letters, so the case-insensitivity lemmas cover ASCII case only.
- Process execution in `install_package` and `update_pip` is not modelled: `subprocess.run`, exit statuses, captured output, console messages and exception handlers. The model keeps only the argument list each install runs. The success message is printed whatever the exit status.
- `update_pip` runs the fixed command `pip install --upgrade pip`. It holds no decision logic beyond its process I/O.
- `get_package_info` and `get_pip_version` are registry lookups and a dynamic import probe, so they are not modelled. The working set used by `is_package_installed` is passed in as its set of keys.
- The progress bar's rendering is not modelled. Only its total and its count of completed steps remain.
- `setup.py` and `post_install.py` only write a fixed import line into the IPython startup directory, which is file I/O.
