/** The finding record that every scanner produces (internal/findings/finding.go). */
module Findings {
  datatype Finding = Finding(
    file: string, line: int, column: int, algorithm: string, language: string, severity: string,
    snippet: string, rule: string, remediation: string, reference: string)
}
